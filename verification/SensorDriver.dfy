/** The state that AkmSensor and SensorAL3006 keep, and their `readEvents` and `processEvent`. */
module SensorDriver {
  import opened InputEventReader
  import opened SensorPipeline
  import opened Sequences

  // ---- `mPendingMask` ----

  /** `1 << j` for a sensor. */
  function Bit(j: nat): bv32
    requires j < 3
  {
    if j == 0 then 1 else if j == 1 then 2 else 4
  }

  predicate Has(mask: bv32, j: nat)
    requires j < 3
  {
    mask & Bit(j) != 0
  }

  /** The mask as one flag a sensor. */
  function Flags(mask: bv32, n: nat): (f: seq<bool>)
    requires n <= 3
    ensures |f| == n
  {
    seq(n, j requires 0 <= j < n => Has(mask, j))
  }

  function With(mask: bv32, j: nat): bv32
    requires j < 3
  {
    mask | Bit(j)
  }

  function Without(mask: bv32, j: nat): bv32
    requires j < 3
  {
    mask & !Bit(j)
  }

  /** No bit beyond the first `n`. */
  predicate Small(mask: bv32, n: nat) {
    mask < (if n == 2 then 4 else 8)
  }

  lemma HasWith(mask: bv32, j: nat, k: nat)
    requires j < 3 && k < 3
    ensures Has(With(mask, j), k) == (k == j || Has(mask, k))
  {
    if j == 0 {
      if k == 0 {} else if k == 1 {} else {}
    } else if j == 1 {
      if k == 0 {} else if k == 1 {} else {}
    } else {
      if k == 0 {} else if k == 1 {} else {}
    }
  }

  lemma HasWithout(mask: bv32, j: nat, k: nat)
    requires j < 3 && k < 3
    ensures Has(Without(mask, j), k) == (k != j && Has(mask, k))
  {
    if j == 0 {
      if k == 0 {} else if k == 1 {} else {}
    } else if j == 1 {
      if k == 0 {} else if k == 1 {} else {}
    } else {
      if k == 0 {} else if k == 1 {} else {}
    }
  }

  lemma SmallWith(mask: bv32, n: nat, j: nat)
    requires 2 <= n <= 3 && j < n && Small(mask, n)
    ensures Small(With(mask, j), n)
  {
    if n == 2 {
      if j == 0 {} else {}
    } else {
      if j == 0 {} else if j == 1 {} else {}
    }
  }

  lemma SmallWithout(mask: bv32, n: nat, j: nat)
    requires 2 <= n <= 3 && j < n && Small(mask, n)
    ensures Small(Without(mask, j), n)
  {
    if n == 2 {
      if j == 0 {} else {}
    } else {
      if j == 0 {} else if j == 1 {} else {}
    }
  }

  lemma NoBits(mask: bv32, n: nat)
    requires 2 <= n <= 3 && Small(mask, n)
    ensures mask == 0 <==> forall j :: 0 <= j < n ==> !Has(mask, j)
  {
    if forall j :: 0 <= j < n ==> !Has(mask, j) {
      assert !Has(mask, 0) && !Has(mask, 1) && (n == 3 ==> !Has(mask, 2));
    }
  }

  lemma FlagsWith(mask: bv32, n: nat, j: nat)
    requires 2 <= n <= 3 && j < n && Small(mask, n)
    ensures Flags(With(mask, j), n) == Flags(mask, n)[j := true] && Small(With(mask, j), n)
  {
    hide Has, With, Small;
    SmallWith(mask, n, j);
    forall k | 0 <= k < n
      ensures Has(With(mask, j), k) == (k == j || Has(mask, k))
    {
      HasWith(mask, j, k);
    }
  }

  lemma FlagsWithout(mask: bv32, n: nat, j: nat)
    requires 2 <= n <= 3 && j < n && Small(mask, n)
    ensures Flags(Without(mask, j), n) == Flags(mask, n)[j := false] && Small(Without(mask, j), n)
  {
    hide Has, Without, Small;
    SmallWithout(mask, n, j);
    forall k | 0 <= k < n
      ensures Has(Without(mask, j), k) == (k != j && Has(mask, k))
    {
      HasWithout(mask, j, k);
    }
  }

  lemma FlagsNone(mask: bv32, n: nat)
    requires 2 <= n <= 3 && Small(mask, n)
    ensures mask == 0 <==> true !in Flags(mask, n)
  {
    hide Has, Small;
    NoBits(mask, n);
    if true !in Flags(mask, n) {
      forall j | 0 <= j < n
        ensures !Has(mask, j)
      {
        assert Flags(mask, n)[j] in Flags(mask, n);
      }
    }
  }

  // ---- The drivers ----

  /** `mEnabled`: a counter a sensor in AkmSensor, a bit a sensor in SensorAL3006. */
  datatype Enabling = Counters(counts: seq<int>) | Mask(mask: bv32)

  function On(e: Enabling, j: nat): bool
    requires j < 3 && (e.Counters? ==> j < |e.counts|)
  {
    match e
    case Counters(counts) => counts[j] != 0
    case Mask(mask) => Has(mask, j)
  }

  predicate Sized(e: Enabling, n: nat) {
    n <= 3 && (e.Counters? ==> |e.counts| == n)
  }

  function EnabledSensors(e: Enabling, n: nat): (en: seq<bool>)
    requires Sized(e, n)
    ensures |en| == n
  {
    seq(n, j requires 0 <= j < n => On(e, j))
  }

  /** A sensor of the AKM chip is on while its counter is not zero, one of the AL3006 while its bit is set. */
  lemma EnabledAre(e: Enabling, n: nat, j: nat)
    requires Sized(e, n) && j < n
    ensures EnabledSensors(e, n)[j]
            == match e
               case Counters(counts) => counts[j] != 0
               case Mask(mask) => mask & (if j == 0 then 1 else if j == 1 then 2 else 4) != 0
  {
  }

  /** The events the constructors prepare; the AKM sensors start with high accuracy. */
  function Templates(chip: Chip): (t: seq<SensorEvent>)
    ensures |t| == NumSensors(chip)
  {
    match chip
    case Akm => [SensorEvent(0, 0.0, 0.0, 0.0, 3, 0), SensorEvent(1, 0.0, 0.0, 0.0, 3, 0),
                 SensorEvent(2, 0.0, 0.0, 0.0, 3, 0)]
    case Al3006 => [SensorEvent(3, 0.0, 0.0, 0.0, 0, 0), SensorEvent(4, 0.0, 0.0, 0.0, 0, 0)]
  }

  // The loops of the methods below, one step at a time.

  lemma StatusIs(read: ReadResult)
    ensures Status(read) < 0 ==> Delivered(read) == []
  {
  }

  /** Flushing from sensor `j` on leads to `whole`. */
  ghost predicate Flushing(whole: Pass, en: seq<bool>, time: int, now: Pass, j: nat, room: nat) {
    && Fit(now.st, en) && j <= |en|
    && var rest := Flush(now.st, en, time, j, room);
       whole == Pass(rest.st, now.out + rest.out)
  }

  lemma FlushingStart(st: State, en: seq<bool>, time: int, room: nat, none: seq<SensorEvent>)
    requires Fit(st, en) && none == []
    ensures Flushing(Flush(st, en, time, 0, room), en, time, Pass(st, none), 0, room)
  {
    var whole := Flush(st, en, time, 0, room);
    assert [] + whole.out == whole.out;
  }

  lemma FlushingEnd(whole: Pass, en: seq<bool>, time: int, now: Pass, j: nat, room: nat)
    requires Flushing(whole, en, time, now, j, room)
    requires j == |en| || room == 0 || !AnyPending(now.st)
    ensures whole == now
  {
    assert now.out + [] == now.out;
  }

  /** One pass of the inner loop: the rest still leads to `whole`. */
  lemma FlushAdvance(
    whole: Pass, en: seq<bool>, time: int, before: Pass, j: nat, room: nat, after: Pass, k: nat)
    requires Flushing(whole, en, time, before, j, room) && j < |en| && room > 0 && AnyPending(before.st)
    requires after.st == if before.st.pending[j] then Stamp(before.st, j, time) else before.st
    requires var out := if before.st.pending[j] && en[j] then [after.st.events[j]] else [];
             after.out == before.out + out && k == |out|
    ensures Flushing(whole, en, time, after, j + 1, room - k)
  {
    var rest := Flush(after.st, en, time, j + 1, room - k);
    if before.st.pending[j] && en[j] {
      assert before.out + ([after.st.events[j]] + rest.out) == after.out + rest.out;
    } else {
      assert before.out + [] == before.out;
    }
  }

  lemma DrainNone(chip: Chip, en: seq<bool>, st: State, q: seq<InputEvent>)
    requires Fit(st, en) && |en| == NumSensors(chip)
    ensures Drain(chip, en, st, q, 0) == Drained(st, q, [])
  {
  }

  lemma DrainStep(chip: Chip, en: seq<bool>, st: State, q: seq<InputEvent>, left: nat)
    requires Fit(st, en) && |en| == NumSensors(chip)
    ensures left == 0 || q == [] ==> Drain(chip, en, st, q, left) == Drained(st, q, [])
    ensures left > 0 && q != [] ==>
              var f := Attempt(chip, en, st, q[0], left);
              if Stays(q[0], f.st) then
                |f.out| == left && Drain(chip, en, st, q, left) == Drained(f.st, q, f.out)
              else
                var rest := Drain(chip, en, f.st, q[1..], left - |f.out|);
                Drain(chip, en, st, q, left) == Drained(rest.st, rest.queue, f.out + rest.out)
  {
    if left > 0 && q != [] {
      AttemptCases(chip, en, st, q[0], left);
    }
  }

  /** Draining from where the loop stands leads to `whole`. */
  ghost predicate Remaining(chip: Chip, en: seq<bool>, whole: Drained, now: Drained, left: nat) {
    && Fit(now.st, en) && |en| == NumSensors(chip)
    && var rest := Drain(chip, en, now.st, now.queue, left);
       whole == Drained(rest.st, rest.queue, now.out + rest.out)
  }

  lemma RemainingStart(chip: Chip, en: seq<bool>, now: Drained, count: nat)
    requires Fit(now.st, en) && |en| == NumSensors(chip) && now.out == []
    ensures Remaining(chip, en, Drain(chip, en, now.st, now.queue, count), now, count)
  {
    var whole := Drain(chip, en, now.st, now.queue, count);
    assert [] + whole.out == whole.out;
  }

  lemma RemainingEnd(chip: Chip, en: seq<bool>, whole: Drained, now: Drained, left: nat)
    requires Remaining(chip, en, whole, now, left) && (left == 0 || now.queue == [])
    ensures whole == now
  {
    DrainStep(chip, en, now.st, now.queue, left);
    assert now.out + [] == now.out;
  }

  /** One pass of the outer loop: progress, and the rest still leads to `whole`. */
  lemma DrainAdvance(
    chip: Chip, en: seq<bool>, whole: Drained, before: Drained, left: nat, after: Drained, k: nat)
    requires Remaining(chip, en, whole, before, left) && left > 0 && before.queue != []
    requires var f := Attempt(chip, en, before.st, before.queue[0], left);
             && after.st == f.st && k == |f.out| && after.out == before.out + f.out
             && after.queue == if Stays(before.queue[0], f.st) then before.queue else before.queue[1..]
    ensures k <= left && Remaining(chip, en, whole, after, left - k)
    ensures |after.queue| + (left - k) < |before.queue| + left
  {
    hide Drain, Attempt, Stays;
    var f := Attempt(chip, en, before.st, before.queue[0], left);
    DrainStep(chip, en, before.st, before.queue, left);
    DrainNone(chip, en, after.st, after.queue);
    assert after.out + [] == after.out;
    if !Stays(before.queue[0], f.st) {
      var rest := Drain(chip, en, f.st, after.queue, left - k);
      assert before.out + (f.out + rest.out) == after.out + rest.out;
    }
  }

  /** Every read in a sequence of calls fits the room there is when it is made. */
  predicate Feasible(chip: Chip, en: seq<bool>, capacity: nat, s: Driver, calls: seq<Call>)
    requires Fit(s.st, en) && |en| == NumSensors(chip)
    decreases |calls|
  {
    calls != [] ==>
      && (|s.queue| < capacity ==> Fits(calls[0].read, capacity - |s.queue|))
      && Feasible(chip, en, capacity, SensorPipeline.ReadEvents(chip, en, capacity, s, calls[0]).after, calls[1..])
  }

  lemma CallsStep(chip: Chip, en: seq<bool>, capacity: nat, s: Driver, calls: seq<Call>, i: nat)
    requires Fit(s.st, en) && |en| == NumSensors(chip) && i < |calls|
    requires Feasible(chip, en, capacity, s, calls[i..])
    ensures |s.queue| < capacity ==> Fits(calls[i].read, capacity - |s.queue|)
    ensures var r := SensorPipeline.ReadEvents(chip, en, capacity, s, calls[i]);
            && Feasible(chip, en, capacity, r.after, calls[i + 1..])
            && Calls(chip, en, capacity, s, calls[i..]).after == Calls(chip, en, capacity, r.after, calls[i + 1..]).after
            && Calls(chip, en, capacity, s, calls[i..]).out == r.out + Calls(chip, en, capacity, r.after, calls[i + 1..]).out
  {
    hide SensorPipeline.ReadEvents;
    assert calls[i..][1..] == calls[i + 1..];
  }

  lemma CallsNone(chip: Chip, en: seq<bool>, capacity: nat, s: Driver, calls: seq<Call>)
    requires Fit(s.st, en) && |en| == NumSensors(chip) && calls == []
    ensures Calls(chip, en, capacity, s, calls) == History(s, [], [])
  {
  }

  /** A call that does not fail returns how many events it stored, and one that fails stores none. */
  lemma StatusCounts(chip: Chip, en: seq<bool>, capacity: nat, s: Driver, c: Call)
    requires Fit(s.st, en) && |en| == NumSensors(chip)
    ensures var r := SensorPipeline.ReadEvents(chip, en, capacity, s, c);
            |r.out| == if r.status < 0 then 0 else r.status
  {
  }

  lemma Written(all: seq<SensorEvent>, start: seq<SensorEvent>, out: seq<SensorEvent>)
    requires |start| + |out| <= |all| && all[..|start| + |out|] == start + out
    ensures all[|start|..|start| + |out|] == out
    ensures forall k :: 0 <= k < |start| ==> all[k] == start[k]
  {
    assert all[|start|..|start| + |out|] == all[..|start| + |out|][|start|..];
    assert forall k :: 0 <= k < |start| ==> all[k] == all[..|start| + |out|][k];
  }

  class SensorDriver {
    const chip: Chip
    var enabled: Enabling
    var pendingMask: bv32
    const pendingEvents: array<SensorEvent>
    const inputReader: InputEventCircularReader

    ghost predicate Valid()
      reads this, inputReader
      ensures Valid() ==> Sized(enabled, NumSensors(chip)) && inputReader.Valid()
    {
      && pendingEvents.Length == NumSensors(chip)
      && Small(pendingMask, NumSensors(chip))
      && Sized(enabled, NumSensors(chip))
      && inputReader.Valid()
      && pendingEvents as object != inputReader.buffer
    }

    ghost function Enabled(): (en: seq<bool>)
      requires Sized(enabled, NumSensors(chip))
      reads this`enabled
      ensures |en| == NumSensors(chip)
    {
      EnabledSensors(enabled, NumSensors(chip))
    }

    ghost function St(): (st: State)
      requires Valid()
      reads this, inputReader, pendingEvents
      ensures |st.pending| == |st.events| == NumSensors(chip)
    {
      State(Flags(pendingMask, NumSensors(chip)), pendingEvents[..])
    }

    ghost function Abs(): (d: Driver)
      requires Valid()
      reads this, inputReader, inputReader.buffer, pendingEvents
      ensures |d.st.pending| == |d.st.events| == NumSensors(chip)
    {
      Driver(St(), inputReader.Queue())
    }

    /** A new driver: 32 events of buffer, nothing pending, nothing enabled. */
    constructor (chip: Chip, blank: InputEvent)
      ensures Valid() && this.chip == chip && inputReader.capacity == 32
      ensures fresh(pendingEvents) && fresh(inputReader) && fresh(inputReader.buffer)
      ensures Abs() == Driver(State(seq(NumSensors(chip), _ => false), Templates(chip)), [])
    {
      this.chip := chip;
      enabled := match chip case Akm => Counters([0, 0, 0]) case Al3006 => Mask(0);
      pendingMask := 0;
      pendingEvents := new SensorEvent[NumSensors(chip)](
        i requires 0 <= i < NumSensors(chip) => Templates(chip)[i]);
      inputReader := new InputEventCircularReader(32, blank);
      new;
      FlagsNone(0, NumSensors(chip));
      forall k | 0 <= k < NumSensors(chip)
        ensures !Flags(0, NumSensors(chip))[k]
      {
        assert Flags(0, NumSensors(chip))[k] in Flags(0, NumSensors(chip));
      }
      assert Flags(0, NumSensors(chip)) == seq(NumSensors(chip), _ => false);
      assert pendingEvents[..] == Templates(chip);
    }

    /** `processEvent`. */
    method ProcessEvent(code: int, value: int)
      requires Valid()
      modifies this`pendingMask, pendingEvents
      ensures Valid()
      ensures St() == Process(chip, old(St()), code, value)
      ensures inputReader.Queue() == old(inputReader.Queue())
    {
      hide Has, With, Small;
      match Route(chip, code) {
        case Ignored =>
        case Target(s, field, scale) =>
          FlagsWith(pendingMask, NumSensors(chip), s);
          pendingMask := With(pendingMask, s);
          pendingEvents[s] := Update(pendingEvents[s], field, scale, value);
      }
    }

    /** Takes sensor `j` out of the pending mask and stamps its event. */
    method StampSensor(j: nat, time: int)
      requires Valid() && j < NumSensors(chip)
      modifies this`pendingMask, pendingEvents
      ensures Valid()
      ensures St() == Stamp(old(St()), j, time)
      ensures pendingMask == 0 <==> !AnyPending(St())
    {
      hide Has, Without, Small;
      FlagsWithout(pendingMask, NumSensors(chip), j);
      pendingMask := Without(pendingMask, j);
      pendingEvents[j] := pendingEvents[j].(timestamp := time);
      FlagsNone(pendingMask, NumSensors(chip));
    }

    /** The inner loop for a synchronisation event: `room` is `count`, and events go to `data[at..]`. */
    method FlushPending(time: int, data: array<SensorEvent>, at: nat, room: nat) returns (n: nat)
      requires Valid() && at + room <= data.Length
      requires data != pendingEvents && data as object != inputReader.buffer
      modifies this`pendingMask, pendingEvents, data
      ensures Valid()
      ensures St() == Flush(old(St()), Enabled(), time, 0, room).st
      ensures n <= room && data[at..at + n] == Flush(old(St()), Enabled(), time, 0, room).out
      ensures forall k :: 0 <= k < at ==> data[k] == old(data[k])
      ensures pendingMask == 0 <==> !AnyPending(St())
    {
      hide Has, Without, Small, Flush, Flushing, AnyPending, EnabledSensors, Enabled, Sized, Valid, St, Stamp;
      ghost var st, en := St(), Enabled();
      ghost var whole := Flush(st, en, time, 0, room);
      n := 0;
      var j := 0;
      MaskIs();
      ghost var start, out: seq<SensorEvent> := data[..at], [];
      assert start + out == start;
      FlushingStart(st, en, time, room, out);
      while j < NumSensors(chip) && n != room && pendingMask != 0
        invariant 0 <= j <= NumSensors(chip) && n <= room
        invariant Valid() && Enabled() == en
        invariant pendingMask == 0 <==> !AnyPending(St())
        invariant data[..at + n] == start + out && Flushing(whole, en, time, Pass(St(), out), j, room - n)
        decreases NumSensors(chip) - j
      {
        var k;
        ghost var more;
        k, more := FlushOne(whole, out, j, time, data, at + n, room - n);
        Assoc(start, out, more);
        n, j, out := n + k, j + 1, out + more;
      }
      FlushingEnd(whole, en, time, Pass(St(), out), j, room - n);
      Written(data[..], start, out);
      assert data[..at + n] == data[..][..at + n] && data[at..at + n] == data[..][at..at + n];
    }

    /** One pass of the inner loop brings the flush one sensor further; `out` went before. */
    method FlushOne(ghost whole: Pass, ghost out: seq<SensorEvent>, j: nat, time: int, data: array<SensorEvent>, at: nat, room: nat)
      returns (k: nat, ghost more: seq<SensorEvent>)
      requires Valid() && j < NumSensors(chip) && 0 < room && at + room <= data.Length
      requires data != pendingEvents && data as object != inputReader.buffer
      requires AnyPending(St()) && Flushing(whole, Enabled(), time, Pass(St(), out), j, room)
      modifies this`pendingMask, pendingEvents, data
      ensures Valid() && k <= room && |more| == k
      ensures Flushing(whole, Enabled(), time, Pass(St(), out + more), j + 1, room - k)
      ensures data[..at + k] == old(data[..at]) + more
      ensures pendingMask == 0 <==> !AnyPending(St())
    {
      hide Has, Without, Small, Flush, Flushing, AnyPending, EnabledSensors, Enabled, Sized, Valid, St, Stamp;
      ghost var before := Pass(St(), out);
      k := FlushSensor(j, time, data, at);
      more := data[at..at + k];
      FlushAdvance(whole, Enabled(), time, before, j, room, Pass(St(), out + more), k);
    }

    /** `mPendingMask` is zero exactly when no sensor is pending. */
    lemma MaskIs()
      requires Valid()
      ensures pendingMask == 0 <==> !AnyPending(St())
    {
      hide Has, Small;
      FlagsNone(pendingMask, NumSensors(chip));
    }

    /** One pass of the inner loop, with room for an event at `data[at]`. */
    method FlushSensor(j: nat, time: int, data: array<SensorEvent>, at: nat) returns (k: nat)
      requires Valid() && j < NumSensors(chip) && at < data.Length
      requires data != pendingEvents && data as object != inputReader.buffer
      modifies this`pendingMask, pendingEvents, data
      ensures Valid()
      ensures St() == if old(St()).pending[j] then Stamp(old(St()), j, time) else old(St())
      ensures k <= 1
      ensures data[at..at + k] == if old(St()).pending[j] && Enabled()[j] then [St().events[j]] else []
      ensures forall i :: 0 <= i < at ==> data[i] == old(data[i])
      ensures pendingMask == 0 <==> !AnyPending(St())
    {
      hide Has, Without, Small, AnyPending;
      k := 0;
      if Has(pendingMask, j) {
        StampSensor(j, time);
        if On(enabled, j) {
          data[at] := pendingEvents[j];
          k := 1;
        }
      } else {
        MaskIs();
      }
    }

    /** `readEvents`: `data` has room for `count` events; `read` is the outcome of the read in `fill`. */
    method ReadEvents(data: array<SensorEvent>, count: int, read: ReadResult) returns (n: int)
      requires Valid() && count <= data.Length
      requires data != pendingEvents && data as object != inputReader.buffer
      requires inputReader.freeSpace > 0 ==> Fits(read, inputReader.freeSpace)
      modifies this, pendingEvents, inputReader, inputReader.buffer, data
      ensures Valid() && enabled == old(enabled) && Enabled() == old(Enabled())
      ensures var r := SensorPipeline.ReadEvents(chip, Enabled(), inputReader.capacity, old(Abs()), Call(count, read));
              Abs() == r.after && n == r.status && |r.out| <= data.Length && data[..|r.out|] == r.out
    {
      if count < 1 {
        return -EINVAL;
      }
      hide Drain, Small, Status, Delivered, Ring;
      ghost var s, q := Abs(), inputReader.Queue();
      var filled := inputReader.Fill(read);
      assert Enabled() == old(Enabled()) && St() == s.st;
      if filled < 0 {
        assert inputReader.Queue() == q by {
          StatusIs(read);
          assert q + [] == q;
        }
        return filled;
      }
      assert inputReader.Queue() == q + Fetched(inputReader.capacity, s, Call(count, read)) by {
        assert q + [] == q;
      }
      n := DrainQueue(data, count);
    }

    /** A caller that makes one call after the other and keeps all it gets. */
    method Session(data: array<SensorEvent>, calls: seq<Call>) returns (out: seq<SensorEvent>)
      requires Valid() && data != pendingEvents && data as object != inputReader.buffer
      requires forall c :: c in calls ==> c.count <= data.Length
      requires Feasible(chip, Enabled(), inputReader.capacity, Abs(), calls)
      modifies this, pendingEvents, inputReader, inputReader.buffer, data
      ensures Valid()
      ensures var h := Calls(chip, old(Enabled()), inputReader.capacity, old(Abs()), calls);
              Abs() == h.after && out == h.out
    {
      hide Valid, Abs, Enabled, EnabledSensors, SensorPipeline.ReadEvents, Calls, Feasible, NumSensors;
      ghost var en, capacity, whole := Enabled(), inputReader.capacity, Calls(chip, Enabled(), inputReader.capacity, Abs(), calls);
      out := [];
      assert calls[0..] == calls;
      assert out + whole.out == whole.out;
      var i := 0;
      while i < |calls|
        invariant 0 <= i <= |calls| && Valid() && Enabled() == en
        invariant Feasible(chip, en, capacity, Abs(), calls[i..])
        invariant whole.after == Calls(chip, en, capacity, Abs(), calls[i..]).after
        invariant whole.out == out + Calls(chip, en, capacity, Abs(), calls[i..]).out
      {
        CallsStep(chip, en, capacity, Abs(), calls, i);
        Room();
        ghost var r := SensorPipeline.ReadEvents(chip, en, capacity, Abs(), calls[i]);
        ghost var later := Calls(chip, en, capacity, r.after, calls[i + 1..]).out;
        assert out + (r.out + later) == (out + r.out) + later;
        assert calls[i] in calls;
        StatusCounts(chip, en, capacity, Abs(), calls[i]);
        assert calls[i] == Call(calls[i].count, calls[i].read);
        var n := ReadEvents(data, calls[i].count, calls[i].read);
        out := out + data[..if n < 0 then 0 else n];
        i := i + 1;
      }
      CallsNone(chip, en, capacity, Abs(), calls[i..]);
      assert out + [] == out;
    }

    /** The free cells are those that hold no queued event. */
    lemma Room()
      requires Valid()
      ensures inputReader.freeSpace == inputReader.capacity - |Abs().queue|
    {
    }

    /** The outer loop of `readEvents`. */
    method DrainQueue(data: array<SensorEvent>, count: nat) returns (n: nat)
      requires Valid() && count <= data.Length
      requires data != pendingEvents && data as object != inputReader.buffer
      modifies this`pendingMask, pendingEvents, inputReader, data
      ensures Valid()
      ensures var d := Drain(chip, Enabled(), old(St()), old(inputReader.Queue()), count);
              Abs() == Driver(d.st, d.queue) && n == |d.out| && data[..n] == d.out
    {
      hide Remaining, Drain, Attempt, Stays, Small, Ring, Sized, EnabledSensors, Valid, St;
      hide InputEventCircularReader.Valid, InputEventCircularReader.Queue;
      ghost var st, q, en := St(), inputReader.Queue(), Enabled();
      ghost var whole := Drain(chip, en, st, q, count);
      n := 0;
      var left := count;
      RemainingStart(chip, en, Drained(st, q, data[..n]), count);
      while left > 0
        invariant Valid() && Enabled() == en && st == St() && q == inputReader.Queue()
        invariant n + left == count
        invariant Remaining(chip, en, whole, Drained(st, q, data[..n]), left)
        decreases |q| + left
      {
        var available, at := inputReader.ReadEvent();
        if !available {
          break;
        }
        ghost var before, sent := Drained(st, q, data[..n]), data[..n];
        var k := HandleHead(data, n, left, at);
        assert data[..n + k] == sent + data[n..n + k];
        st, q := St(), inputReader.Queue();
        DrainAdvance(chip, en, whole, before, left, Drained(st, q, data[..n + k]), k);
        n, left := n + k, left - k;
      }
      RemainingEnd(chip, en, whole, Drained(st, q, data[..n]), left);
    }

    /** One pass of the outer loop, for the event in cell `at` of the reader. */
    method HandleHead(data: array<SensorEvent>, n: nat, left: nat, at: nat) returns (k: nat)
      requires Valid() && n + left <= data.Length && left > 0
      requires data != pendingEvents && data as object != inputReader.buffer
      requires inputReader.Queue() != [] && at < inputReader.buffer.Length
      requires inputReader.buffer[at] == inputReader.Queue()[0]
      modifies this`pendingMask, pendingEvents, inputReader, data
      ensures Valid()
      ensures St() == Attempt(chip, Enabled(), old(St()), old(inputReader.Queue()[0]), left).st
      ensures k == |Attempt(chip, Enabled(), old(St()), old(inputReader.Queue()[0]), left).out| <= left
      ensures data[n..n + k] == Attempt(chip, Enabled(), old(St()), old(inputReader.Queue()[0]), left).out
      ensures inputReader.Queue()
              == if Stays(old(inputReader.Queue()[0]), St()) then old(inputReader.Queue()) else old(inputReader.Queue())[1..]
      ensures forall i :: 0 <= i < n ==> data[i] == old(data[i])
    {
      hide Flush, Process, FlushOut, FlushState, Small, Ring;
      k := 0;
      var event := inputReader.buffer[at];
      if event.kind == EV_ABS {
        ProcessEvent(event.code, event.value);
        inputReader.Next();
      } else if event.kind == EV_SYN {
        k := FlushPending(event.time, data, n, left);
        if pendingMask == 0 {
          inputReader.Next();
        }
      } else {
        inputReader.Next();
      }
    }
  }
}
