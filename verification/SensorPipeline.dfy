/**
  What the sensor drivers AkmSensor.cpp and SensorAL3006.cpp do with a stream of input events: one
  unbounded pass over the stream (`Run`), the pass of one `readEvents` call that stops when the
  caller's buffer is full, possibly in the middle of a synchronisation event (`Drain`), and the
  proof that cutting the pass into calls changes nothing.
*/
module SensorPipeline {
  import opened InputEventReader

  datatype SensorEvent = SensorEvent(sensor: int, x: real, y: real, z: real, status: int, timestamp: int)

  datatype Chip = Akm | Al3006

  function NumSensors(chip: Chip): nat {
    match chip
    case Akm => 3
    case Al3006 => 2
  }

  // Event types and codes of the kernel's input interface.
  const EV_SYN: int := 0
  const EV_ABS: int := 3

  /** Which sensors have new data, and the event under construction for each. */
  datatype State = State(pending: seq<bool>, events: seq<SensorEvent>)

  predicate Fit(st: State, en: seq<bool>) {
    |st.pending| == |st.events| == |en|
  }

  // ---- Axis events ----

  datatype Field = X | Y | Z | Accuracy

  datatype Target = Ignored | Target(sensor: nat, field: Field, scale: real)

  /** The value a signed byte holds after storing `value` in it. */
  function Int8(value: int): int {
    (value + 128) % 256 - 128
  }

  const CONVERT_A: real := 9.80665 / 256.0
  const CONVERT_M: real := 0.06
  const CONVERT_O: real := 0.015625

  /** The sensor and field that an axis code feeds. */
  function Route(chip: Chip, code: int): (t: Target)
    ensures t.Target? ==> t.sensor < NumSensors(chip)
  {
    match chip
    case Akm =>
      if code == 0x00 then Target(0, X, CONVERT_A)
      else if code == 0x01 then Target(0, Y, CONVERT_A)
      else if code == 0x02 then Target(0, Z, CONVERT_A)
      else if code == 0x03 then Target(1, X, CONVERT_M)
      else if code == 0x04 then Target(1, Y, CONVERT_M)
      else if code == 0x05 then Target(1, Z, CONVERT_M)
      else if code == 0x07 then Target(1, Accuracy, 1.0)
      else if code == 0x10 then Target(2, X, CONVERT_O)
      else if code == 0x11 then Target(2, Y, CONVERT_O)
      else if code == 0x12 then Target(2, Z, CONVERT_O)
      else if code == 0x13 then Target(2, Accuracy, 1.0)
      else Ignored
    case Al3006 =>
      if code == 0x28 then Target(0, X, 1.0)
      else if code == 0x19 then Target(1, X, 1.0)
      else Ignored
  }

  function Update(e: SensorEvent, field: Field, scale: real, value: int): SensorEvent {
    match field
    case X => e.(x := value as real * scale)
    case Y => e.(y := value as real * scale)
    case Z => e.(z := value as real * scale)
    case Accuracy => e.(status := Int8(value))
  }

  /** An axis event changes one field of one sensor and marks that sensor. */
  function Process(chip: Chip, st: State, code: int, value: int): (r: State)
    requires |st.pending| == |st.events| == NumSensors(chip)
    ensures |r.pending| == |r.events| == NumSensors(chip)
  {
    match Route(chip, code)
    case Ignored => st
    case Target(s, field, scale) =>
      State(st.pending[s := true], st.events[s := Update(st.events[s], field, scale, value)])
  }

  // ---- Synchronisation events ----

  /** What a synchronisation event emits from sensor `j` on: the enabled pending sensors, in order. */
  function FlushOut(st: State, en: seq<bool>, time: int, j: nat): seq<SensorEvent>
    requires Fit(st, en) && j <= |en|
    decreases |en| - j
  {
    if j == |en| then []
    else if st.pending[j] && en[j] then [st.events[j].(timestamp := time)] + FlushOut(st, en, time, j + 1)
    else FlushOut(st, en, time, j + 1)
  }

  /** What it leaves: every pending event stamped, nothing pending. */
  function FlushState(st: State, time: int): (r: State)
    requires |st.pending| == |st.events|
    ensures |r.pending| == |r.events| == |st.events|
  {
    State(seq(|st.pending|, _ => false),
          seq(|st.events|, j requires 0 <= j < |st.events| =>
            if st.pending[j] then st.events[j].(timestamp := time) else st.events[j]))
  }

  // ---- One unbounded pass ----

  datatype Pass = Pass(st: State, out: seq<SensorEvent>)

  /** The whole effect of one event. */
  function Handle(chip: Chip, en: seq<bool>, st: State, e: InputEvent): (r: Pass)
    requires Fit(st, en) && |en| == NumSensors(chip)
    ensures Fit(r.st, en)
  {
    if e.kind == EV_ABS then Pass(Process(chip, st, e.code, e.value), [])
    else if e.kind == EV_SYN then Pass(FlushState(st, e.time), FlushOut(st, en, e.time, 0))
    else Pass(st, [])
  }

  function Run(chip: Chip, en: seq<bool>, st: State, q: seq<InputEvent>): (r: Pass)
    requires Fit(st, en) && |en| == NumSensors(chip)
    ensures Fit(r.st, en)
    decreases |q|
  {
    if q == [] then Pass(st, [])
    else
      var first := Handle(chip, en, st, q[0]);
      var rest := Run(chip, en, first.st, q[1..]);
      Pass(rest.st, first.out + rest.out)
  }

  // ---- The pass of one call ----

  predicate AnyPending(st: State) {
    true in st.pending
  }

  /** The inner loop of `readEvents` from sensor `j` on, with room for `count` more events. */
  function Flush(st: State, en: seq<bool>, time: int, j: nat, count: nat): (r: Pass)
    requires Fit(st, en) && j <= |en|
    ensures Fit(r.st, en) && |r.out| <= count
    decreases |en| - j
  {
    if j == |en| || count == 0 || !AnyPending(st) then Pass(st, [])
    else if !st.pending[j] then Flush(st, en, time, j + 1, count)
    else
      var e := st.events[j].(timestamp := time);
      var next := State(st.pending[j := false], st.events[j := e]);
      if en[j] then
        var rest := Flush(next, en, time, j + 1, count - 1);
        rest.(out := [e] + rest.out)
      else Flush(next, en, time, j + 1, count)
  }

  /** What a call with room for `count` events does with the event at the head of the queue. */
  function Attempt(chip: Chip, en: seq<bool>, st: State, e: InputEvent, count: nat): (r: Pass)
    requires Fit(st, en) && |en| == NumSensors(chip)
    ensures Fit(r.st, en) && |r.out| <= count
  {
    if e.kind == EV_SYN then Flush(st, en, e.time, 0, count) else Handle(chip, en, st, e)
  }

  /** A synchronisation event stays queued while sensors are pending. */
  predicate Stays(e: InputEvent, now: State) {
    e.kind == EV_SYN && AnyPending(now)
  }

  datatype Drained = Drained(st: State, queue: seq<InputEvent>, out: seq<SensorEvent>)

  /** The outer loop of `readEvents`. */
  function Drain(chip: Chip, en: seq<bool>, st: State, q: seq<InputEvent>, count: nat): (r: Drained)
    requires Fit(st, en) && |en| == NumSensors(chip)
    ensures Fit(r.st, en) && |r.queue| <= |q| && |r.out| <= count
    decreases |q|
  {
    if count == 0 || q == [] then Drained(st, q, [])
    else
      var f := Attempt(chip, en, st, q[0], count);
      if Stays(q[0], f.st) then Drained(f.st, q, f.out)
      else
        var rest := Drain(chip, en, f.st, q[1..], count - |f.out|);
        Drained(rest.st, rest.queue, f.out + rest.out)
  }

  // ---- A flush can be interrupted ----

  lemma {:induction false} FlushOutNone(st: State, en: seq<bool>, time: int, j: nat)
    requires Fit(st, en) && j <= |en| && !AnyPending(st)
    ensures FlushOut(st, en, time, j) == []
    ensures FlushState(st, time) == st
    decreases |en| - j
  {
    if j < |en| {
      assert st.pending[j] in st.pending;
      FlushOutNone(st, en, time, j + 1);
    } else {
      forall k | 0 <= k < |st.pending|
        ensures !st.pending[k]
      {
        assert st.pending[k] in st.pending;
      }
      assert FlushState(st, time).pending == st.pending;
      assert FlushState(st, time).events == st.events;
    }
  }

  /** Sensors below `j` do not matter to what is emitted from `j` on. */
  lemma {:induction false} FlushOutAbove(st: State, other: State, en: seq<bool>, time: int, j: nat)
    requires Fit(st, en) && Fit(other, en) && j <= |en|
    requires forall k :: j <= k < |en| ==> st.pending[k] == other.pending[k] && st.events[k] == other.events[k]
    ensures FlushOut(st, en, time, j) == FlushOut(other, en, time, j)
    decreases |en| - j
  {
    if j < |en| {
      FlushOutAbove(st, other, en, time, j + 1);
    }
  }

  /** Sensors that are not pending emit nothing. */
  lemma {:induction false} FlushOutSkip(st: State, en: seq<bool>, time: int, i: nat, j: nat)
    requires Fit(st, en) && i <= j <= |en|
    requires forall k :: i <= k < j ==> !st.pending[k]
    ensures FlushOut(st, en, time, i) == FlushOut(st, en, time, j)
    decreases j - i
  {
    if i < j {
      FlushOutSkip(st, en, time, i + 1, j);
    }
  }

  /** Sensor `j` as the flush leaves it. */
  function Stamp(st: State, j: nat, time: int): State
    requires |st.pending| == |st.events| && j < |st.pending|
  {
    State(st.pending[j := false], st.events[j := st.events[j].(timestamp := time)])
  }

  lemma StampOne(st: State, en: seq<bool>, time: int, j: nat)
    requires Fit(st, en) && j < |en| && st.pending[j]
    requires forall k :: 0 <= k < j ==> !st.pending[k]
    ensures FlushState(Stamp(st, j, time), time) == FlushState(st, time)
    ensures FlushOut(st, en, time, 0)
            == (if en[j] then [st.events[j].(timestamp := time)] else []) + FlushOut(Stamp(st, j, time), en, time, 0)
  {
    StampState(st, time, j);
    hide FlushState;
    var next := Stamp(st, j, time);
    FlushOutSkip(st, en, time, 0, j);
    FlushOutAbove(st, next, en, time, j + 1);
    FlushOutSkip(next, en, time, 0, j + 1);
  }

  lemma StampState(st: State, time: int, j: nat)
    requires |st.pending| == |st.events| && j < |st.pending| && st.pending[j]
    ensures FlushState(Stamp(st, j, time), time) == FlushState(st, time)
  {
    assert FlushState(Stamp(st, j, time), time).pending == FlushState(st, time).pending;
    assert FlushState(Stamp(st, j, time), time).events == FlushState(st, time).events;
  }

  /** Stopping a flush loses nothing: what was emitted and what is still pending make up the whole. */
  lemma {:induction false} FlushSplits(st: State, en: seq<bool>, time: int, j: nat, count: nat)
    requires Fit(st, en) && j <= |en|
    requires forall k :: 0 <= k < j ==> !st.pending[k]
    ensures var f := Flush(st, en, time, j, count);
            && f.out + FlushOut(f.st, en, time, 0) == FlushOut(st, en, time, 0)
            && FlushState(f.st, time) == FlushState(st, time)
            && (AnyPending(f.st) ==> |f.out| == count)
    decreases |en| - j
  {
    hide FlushOut, FlushState;
    var whole := FlushOut(st, en, time, 0);
    if j == |en| || count == 0 || !AnyPending(st) {
      assert [] + whole == whole;
    } else if !st.pending[j] {
      FlushSplits(st, en, time, j + 1, count);
    } else {
      var next := Stamp(st, j, time);
      StampOne(st, en, time, j);
      var left := if en[j] then count - 1 else count;
      FlushSplits(next, en, time, j + 1, left);
      var rest := Flush(next, en, time, j + 1, left);
      var tail := FlushOut(rest.st, en, time, 0);
      var head := if en[j] then [st.events[j].(timestamp := time)] else [];
      assert head + (rest.out + tail) == (head + rest.out) + tail;
      assert [] + rest.out == rest.out;
    }
  }

  /** A flush that leaves nothing pending is the whole synchronisation event. */
  lemma FlushCompletes(st: State, en: seq<bool>, time: int, count: nat)
    requires Fit(st, en) && !AnyPending(Flush(st, en, time, 0, count).st)
    ensures Flush(st, en, time, 0, count) == Pass(FlushState(st, time), FlushOut(st, en, time, 0))
  {
    var f := Flush(st, en, time, 0, count);
    FlushSplits(st, en, time, 0, count);
    FlushOutNone(f.st, en, time, 0);
  }

  /** `now` differs from `before` by a part of synchronisation event `syn`; what is pending is the rest of it. */
  predicate HalfDone(en: seq<bool>, before: Pass, now: Pass, syn: InputEvent)
    requires Fit(before.st, en) && Fit(now.st, en)
  {
    && syn.kind == EV_SYN
    && now.out + FlushOut(now.st, en, syn.time, 0) == before.out + FlushOut(before.st, en, syn.time, 0)
    && FlushState(now.st, syn.time) == FlushState(before.st, syn.time)
  }

  /** The head of the queue is either handled completely, or half done because the caller's buffer is full. */
  lemma AttemptCases(chip: Chip, en: seq<bool>, st: State, e: InputEvent, count: nat)
    requires Fit(st, en) && |en| == NumSensors(chip)
    ensures var f := Attempt(chip, en, st, e, count);
            if Stays(e, f.st) then |f.out| == count && HalfDone(en, Pass(st, []), f, e)
            else f == Handle(chip, en, st, e)
  {
    if e.kind == EV_SYN {
      var f := Flush(st, en, e.time, 0, count);
      FlushSplits(st, en, e.time, 0, count);
      if AnyPending(f.st) {
        assert [] + FlushOut(st, en, e.time, 0) == FlushOut(st, en, e.time, 0);
      } else {
        FlushCompletes(st, en, e.time, count);
      }
    }
  }

  /** Finishing a half-done event gives what the whole event gives. */
  lemma HalfDoneRun(chip: Chip, en: seq<bool>, before: Pass, now: Pass, q: seq<InputEvent>)
    requires Fit(before.st, en) && Fit(now.st, en) && |en| == NumSensors(chip)
    requires q != [] && HalfDone(en, before, now, q[0])
    ensures Run(chip, en, before.st, q).st == Run(chip, en, now.st, q).st
    ensures before.out + Run(chip, en, before.st, q).out == now.out + Run(chip, en, now.st, q).out
  {
    hide Handle, HalfDone;
    var a, b := Handle(chip, en, before.st, q[0]), Handle(chip, en, now.st, q[0]);
    HalfDoneHandle(chip, en, before, now, q[0]);
    var rest := Run(chip, en, a.st, q[1..]).out;
    assert before.out + (a.out + rest) == (before.out + a.out) + rest;
    assert now.out + (b.out + rest) == (now.out + b.out) + rest;
  }

  lemma HalfDoneHandle(chip: Chip, en: seq<bool>, before: Pass, now: Pass, syn: InputEvent)
    requires Fit(before.st, en) && Fit(now.st, en) && |en| == NumSensors(chip)
    requires HalfDone(en, before, now, syn)
    ensures Handle(chip, en, now.st, syn).st == Handle(chip, en, before.st, syn).st
    ensures now.out + Handle(chip, en, now.st, syn).out == before.out + Handle(chip, en, before.st, syn).out
  {
    hide FlushOut, FlushState;
  }

  // ---- A call emits the next events of the unbounded pass ----

  /**
    One call emits exactly the first `count` events of the pass over the queue, or all of them if
    there are fewer; what it leaves behind yields the rest, and it only leaves events when full.
  */
  lemma {:induction false} DrainIsPrefixOfRun(chip: Chip, en: seq<bool>, st: State, q: seq<InputEvent>, count: nat)
    requires Fit(st, en) && |en| == NumSensors(chip)
    ensures var d := Drain(chip, en, st, q, count);
            var r := Run(chip, en, d.st, d.queue);
            && Run(chip, en, st, q) == Pass(r.st, d.out + r.out)
            && (d.queue != [] ==> |d.out| == count)
    decreases |q|
  {
    hide Attempt, Handle, Stays, HalfDone;
    var d := Drain(chip, en, st, q, count);
    var r := Run(chip, en, d.st, d.queue);
    if count == 0 || q == [] {
      assert [] + r.out == r.out;
    } else {
      var f := Attempt(chip, en, st, q[0], count);
      AttemptCases(chip, en, st, q[0], count);
      if Stays(q[0], f.st) {
        HalfDoneRun(chip, en, Pass(st, []), f, q);
        assert [] + Run(chip, en, st, q).out == Run(chip, en, st, q).out;
      } else {
        DrainIsPrefixOfRun(chip, en, f.st, q[1..], count - |f.out|);
        var rest := Drain(chip, en, f.st, q[1..], count - |f.out|);
        assert f.out + (rest.out + r.out) == d.out + r.out;
      }
    }
  }

  lemma {:induction false} RunConcat(chip: Chip, en: seq<bool>, st: State, p: seq<InputEvent>, q: seq<InputEvent>)
    requires Fit(st, en) && |en| == NumSensors(chip)
    ensures var a := Run(chip, en, st, p);
            var b := Run(chip, en, a.st, q);
            Run(chip, en, st, p + q) == Pass(b.st, a.out + b.out)
    decreases |p|
  {
    hide Handle;
    var a := Run(chip, en, st, p);
    var b := Run(chip, en, a.st, q);
    if p == [] {
      assert p + q == q;
      assert [] + b.out == b.out;
    } else {
      assert (p + q)[1..] == p[1..] + q;
      var first := Handle(chip, en, st, p[0]);
      RunConcat(chip, en, first.st, p[1..], q);
      var rest := Run(chip, en, first.st, p[1..]);
      assert first.out + (rest.out + b.out) == a.out + b.out;
    }
  }

  /**
    Where a call stands when it returns: it has handled a prefix of the queue completely, and beyond
    that it can only have started on the synchronisation event at the head, from which exactly the
    still pending part is missing.
  */
  lemma {:induction false} DrainStopsInsideSyn(
    chip: Chip, en: seq<bool>, st: State, q: seq<InputEvent>, count: nat)
    requires Fit(st, en) && |en| == NumSensors(chip)
    ensures Standing(chip, en, st, q, Drain(chip, en, st, q, count))
    decreases |q|
  {
    hide Attempt, Handle, Stays, HalfDone, Standing, Run;
    var d := Drain(chip, en, st, q, count);
    if count == 0 || q == [] {
      StandingStill(chip, en, st, q, Pass(st, []));
    } else {
      var f := Attempt(chip, en, st, q[0], count);
      AttemptCases(chip, en, st, q[0], count);
      if Stays(q[0], f.st) {
        StandingStill(chip, en, st, q, f);
      } else {
        var rest := Drain(chip, en, f.st, q[1..], count - |f.out|);
        DrainStopsInsideSyn(chip, en, f.st, q[1..], count - |f.out|);
        StandingAfter(chip, en, st, q, rest);
      }
    }
  }

  /** `d` is the result of handling `done` completely, and perhaps a part of the event at the head of its queue. */
  predicate StoodAt(chip: Chip, en: seq<bool>, st: State, done: seq<InputEvent>, d: Drained)
    requires Fit(st, en) && |en| == NumSensors(chip) && Fit(d.st, en)
  {
    var r := Run(chip, en, st, done);
    r == Pass(d.st, d.out) || (d.queue != [] && HalfDone(en, r, Pass(d.st, d.out), d.queue[0]))
  }

  /** `d` is where one stands that started with `st` and `q`. */
  predicate Standing(chip: Chip, en: seq<bool>, st: State, q: seq<InputEvent>, d: Drained)
    requires Fit(st, en) && |en| == NumSensors(chip) && Fit(d.st, en) && |d.queue| <= |q|
  {
    var done := q[..|q| - |d.queue|];
    q == done + d.queue && StoodAt(chip, en, st, done, d)
  }

  /** Before the head of the queue, or half-way through it. */
  lemma StandingStill(chip: Chip, en: seq<bool>, st: State, q: seq<InputEvent>, f: Pass)
    requires Fit(st, en) && |en| == NumSensors(chip) && Fit(f.st, en)
    requires f == Pass(st, []) || (q != [] && HalfDone(en, Pass(st, []), f, q[0]))
    ensures Standing(chip, en, st, q, Drained(f.st, q, f.out))
  {
    hide HalfDone;
    assert q[..0] == [];
  }

  lemma StandingAfter(chip: Chip, en: seq<bool>, st: State, q: seq<InputEvent>, rest: Drained)
    requires Fit(st, en) && |en| == NumSensors(chip) && Fit(rest.st, en)
    requires q != [] && |rest.queue| <= |q| - 1
    requires Standing(chip, en, Handle(chip, en, st, q[0]).st, q[1..], rest)
    ensures Standing(chip, en, st, q, Drained(rest.st, rest.queue, Handle(chip, en, st, q[0]).out + rest.out))
  {
    hide Handle, HalfDone;
    var first := Handle(chip, en, st, q[0]);
    var done := q[..|q| - |rest.queue|];
    assert done[1..] == q[1..][..|q| - 1 - |rest.queue|];
    assert q == [q[0]] + q[1..];
    assert q == done + rest.queue;
    var r := Run(chip, en, first.st, done[1..]);
    if r != Pass(rest.st, rest.out) {
      HalfDoneAfter(en, first.out, r, Pass(rest.st, rest.out), rest.queue[0]);
    }
  }

  lemma HalfDoneAfter(en: seq<bool>, out: seq<SensorEvent>, before: Pass, now: Pass, syn: InputEvent)
    requires Fit(before.st, en) && Fit(now.st, en) && HalfDone(en, before, now, syn)
    ensures HalfDone(en, Pass(before.st, out + before.out), Pass(now.st, out + now.out), syn)
  {
    hide FlushOut, FlushState;
    var a, b := FlushOut(before.st, en, syn.time, 0), FlushOut(now.st, en, syn.time, 0);
    assert (out + now.out) + b == out + (now.out + b);
    assert (out + before.out) + a == out + (before.out + a);
  }

  // ---- Calls ----

  /** One `readEvents` call: the room the caller offers, and the outcome of the read it makes. */
  datatype Call = Call(count: int, read: ReadResult)

  datatype Driver = Driver(st: State, queue: seq<InputEvent>)

  datatype Returned = Returned(after: Driver, status: int, out: seq<SensorEvent>)

  /** `readEvents` of a driver whose reader holds up to `capacity` events. */
  function ReadEvents(chip: Chip, en: seq<bool>, capacity: nat, s: Driver, c: Call): (r: Returned)
    requires Fit(s.st, en) && |en| == NumSensors(chip)
    ensures Fit(r.after.st, en)
  {
    if c.count < 1 then Returned(s, -EINVAL, [])
    else if |s.queue| < capacity && Status(c.read) < 0 then Returned(s, Status(c.read), [])
    else
      var d := Drain(chip, en, s.st, s.queue + Fetched(capacity, s, c), c.count);
      Returned(Driver(d.st, d.queue), |d.out|, d.out)
  }

  /** The events a call takes from the device: none without room, none with a bad count, none on an error. */
  function Fetched(capacity: nat, s: Driver, c: Call): seq<InputEvent> {
    if c.count < 1 || |s.queue| >= capacity then [] else Delivered(c.read)
  }

  datatype History = History(after: Driver, fetched: seq<InputEvent>, out: seq<SensorEvent>)

  /** A whole sequence of calls. */
  function Calls(chip: Chip, en: seq<bool>, capacity: nat, s: Driver, calls: seq<Call>): (h: History)
    requires Fit(s.st, en) && |en| == NumSensors(chip)
    ensures Fit(h.after.st, en)
    decreases |calls|
  {
    if calls == [] then History(s, [], [])
    else
      var r := ReadEvents(chip, en, capacity, s, calls[0]);
      var rest := Calls(chip, en, capacity, r.after, calls[1..]);
      History(rest.after, Fetched(capacity, s, calls[0]) + rest.fetched, r.out + rest.out)
  }

  /** A single call conserves the pass: emitted events plus what the queue still yields. */
  lemma CallConserves(chip: Chip, en: seq<bool>, capacity: nat, s: Driver, c: Call)
    requires Fit(s.st, en) && |en| == NumSensors(chip)
    ensures var r := ReadEvents(chip, en, capacity, s, c);
            var rest := Run(chip, en, r.after.st, r.after.queue);
            Run(chip, en, s.st, s.queue + Fetched(capacity, s, c)) == Pass(rest.st, r.out + rest.out)
  {
    hide Run, Drain;
    var r := ReadEvents(chip, en, capacity, s, c);
    var q := s.queue + Fetched(capacity, s, c);
    if c.count < 1 || (|s.queue| < capacity && Status(c.read) < 0) {
      assert q == s.queue;
      var rest := Run(chip, en, s.st, s.queue);
      assert [] + rest.out == rest.out;
    } else {
      DrainIsPrefixOfRun(chip, en, s.st, q, c.count);
    }
  }

  /**
    Batching does not matter. Whatever the counts, the sizes of the reads and the failures among
    them, the events emitted so far followed by what the queued events still yield are the events of
    one unbounded pass over everything that was fetched, and both leave the same sensor state.
  */
  lemma {:induction false} BatchingIsInvisible(
    chip: Chip, en: seq<bool>, capacity: nat, s: Driver, calls: seq<Call>)
    requires Fit(s.st, en) && |en| == NumSensors(chip)
    ensures var h := Calls(chip, en, capacity, s, calls);
            var rest := Run(chip, en, h.after.st, h.after.queue);
            Run(chip, en, s.st, s.queue + h.fetched) == Pass(rest.st, h.out + rest.out)
    decreases |calls|
  {
    hide Run, ReadEvents, Fetched;
    var h := Calls(chip, en, capacity, s, calls);
    var rest := Run(chip, en, h.after.st, h.after.queue);
    if calls == [] {
      assert s.queue + [] == s.queue;
      assert [] + rest.out == rest.out;
    } else {
      var r := ReadEvents(chip, en, capacity, s, calls[0]);
      var got := Fetched(capacity, s, calls[0]);
      var later := Calls(chip, en, capacity, r.after, calls[1..]);
      CallConserves(chip, en, capacity, s, calls[0]);
      BatchingIsInvisible(chip, en, capacity, r.after, calls[1..]);
      RunConcat(chip, en, s.st, s.queue + got, later.fetched);
      RunConcat(chip, en, r.after.st, r.after.queue, later.fetched);
      assert s.queue + h.fetched == (s.queue + got) + later.fetched;
      var mid := Run(chip, en, r.after.st, r.after.queue);
      var end := Run(chip, en, mid.st, later.fetched);
      assert (r.out + mid.out) + end.out == r.out + (mid.out + end.out);
      assert r.out + (later.out + rest.out) == h.out + rest.out;
    }
  }

  // ---- Where a sequence of calls stands ----

  lemma HalfDoneTwice(en: seq<bool>, before: Pass, now: Pass, later: Pass, syn: InputEvent)
    requires Fit(before.st, en) && Fit(now.st, en) && Fit(later.st, en)
    requires HalfDone(en, before, now, syn) && HalfDone(en, Pass(now.st, []), later, syn)
    ensures HalfDone(en, before, Pass(later.st, now.out + later.out), syn)
  {
    hide FlushOut, FlushState;
    var a, b := FlushOut(now.st, en, syn.time, 0), FlushOut(later.st, en, syn.time, 0);
    assert (now.out + later.out) + b == now.out + (later.out + b);
    assert [] + a == a;
  }

  /** A position reached in two stages. `done` and `done'` are the events each has handled completely. */
  lemma StandingTwice(chip: Chip, en: seq<bool>, st: State, done: seq<InputEvent>, mid: Drained,
                      done': seq<InputEvent>, end: Drained)
    requires Fit(st, en) && Fit(mid.st, en) && Fit(end.st, en) && |en| == NumSensors(chip)
    requires StoodAt(chip, en, st, done, mid) && StoodAt(chip, en, mid.st, done', end)
    requires mid.queue != [] ==> done' + end.queue != [] && (done' + end.queue)[0] == mid.queue[0]
    ensures StoodAt(chip, en, st, done + done', Drained(end.st, end.queue, mid.out + end.out))
  {
    hide HalfDone, Handle, Run;
    var r, now := Run(chip, en, st, done), Pass(mid.st, mid.out);
    var x := Run(chip, en, mid.st, done');
    RunConcat(chip, en, st, done, done');
    if r != now && done' == [] {
      RunNothing(chip, en, mid.st);
      RunNothing(chip, en, r.st);
      assert r.out + [] == r.out && mid.out + [] == mid.out;
      if x != Pass(end.st, end.out) {
        HalfDoneTwice(en, r, now, Pass(end.st, end.out), end.queue[0]);
      }
    } else {
      if r != now {
        HalfDoneRun(chip, en, r, now, done');
      }
      if x != Pass(end.st, end.out) {
        HalfDoneAfter(en, mid.out, x, Pass(end.st, end.out), end.queue[0]);
      }
    }
  }

  lemma RunNothing(chip: Chip, en: seq<bool>, st: State)
    requires Fit(st, en) && |en| == NumSensors(chip)
    ensures Run(chip, en, st, []) == Pass(st, [])
  {
  }

  lemma StandingComposes(chip: Chip, en: seq<bool>, st: State, q: seq<InputEvent>, mid: Drained,
                         more: seq<InputEvent>, end: Drained)
    requires Fit(st, en) && Fit(mid.st, en) && Fit(end.st, en) && |en| == NumSensors(chip)
    requires |mid.queue| <= |q| && |end.queue| <= |mid.queue| + |more|
    requires Standing(chip, en, st, q, mid) && Standing(chip, en, mid.st, mid.queue + more, end)
    ensures Standing(chip, en, st, q + more, Drained(end.st, end.queue, mid.out + end.out))
  {
    hide StoodAt;
    var next := mid.queue + more;
    var done, done' := q[..|q| - |mid.queue|], next[..|next| - |end.queue|];
    assert mid.queue != [] ==> (done' + end.queue)[0] == mid.queue[0];
    StandingTwice(chip, en, st, done, mid, done', end);
    assert q + more == done + next == (done + done') + end.queue;
    assert (q + more)[..|q + more| - |end.queue|] == done + done';
  }

  lemma CallStands(chip: Chip, en: seq<bool>, capacity: nat, s: Driver, c: Call)
    requires Fit(s.st, en) && |en| == NumSensors(chip)
    ensures var r := ReadEvents(chip, en, capacity, s, c);
            && |r.after.queue| <= |s.queue + Fetched(capacity, s, c)|
            && Standing(chip, en, s.st, s.queue + Fetched(capacity, s, c), Drained(r.after.st, r.after.queue, r.out))
  {
    hide HalfDone, Drain, Handle;
    var q := s.queue + Fetched(capacity, s, c);
    if c.count < 1 || (|s.queue| < capacity && Status(c.read) < 0) {
      assert q == s.queue && q[..0] == [];
    } else {
      DrainStopsInsideSyn(chip, en, s.st, q, c.count);
    }
  }

  /**
    Where any sequence of calls stands: a prefix of everything that was there or fetched has been
    handled completely, and beyond that only the still pending part of the synchronisation event at
    the head of the queue is missing from the output.
  */
  lemma {:induction false} CallsStopInsideSyn(
    chip: Chip, en: seq<bool>, capacity: nat, s: Driver, calls: seq<Call>)
    requires Fit(s.st, en) && |en| == NumSensors(chip)
    ensures var h := Calls(chip, en, capacity, s, calls);
            && |h.after.queue| <= |s.queue + h.fetched|
            && Standing(chip, en, s.st, s.queue + h.fetched, Drained(h.after.st, h.after.queue, h.out))
    decreases |calls|
  {
    hide Run, ReadEvents, Fetched, HalfDone, Standing;
    if calls == [] {
      assert s.queue + [] == s.queue;
      NothingStands(chip, en, s.st, s.queue);
    } else {
      var r := ReadEvents(chip, en, capacity, s, calls[0]);
      var got := Fetched(capacity, s, calls[0]);
      var later := Calls(chip, en, capacity, r.after, calls[1..]);
      CallStands(chip, en, capacity, s, calls[0]);
      CallsStopInsideSyn(chip, en, capacity, r.after, calls[1..]);
      StandingComposes(chip, en, s.st, s.queue + got, Drained(r.after.st, r.after.queue, r.out),
                       later.fetched, Drained(later.after.st, later.after.queue, later.out));
      assert (s.queue + got) + later.fetched == s.queue + (got + later.fetched);
    }
  }

  lemma NothingStands(chip: Chip, en: seq<bool>, st: State, q: seq<InputEvent>)
    requires Fit(st, en) && |en| == NumSensors(chip)
    ensures Standing(chip, en, st, q, Drained(st, q, []))
  {
    assert q[..0] == [] && [] + q == q;
  }

  /** Two ways of batching the same events that both end with an empty queue emit the same stream. */
  lemma SameEventsSameStream(
    chip: Chip, en: seq<bool>, capacity: nat, other: nat, s: Driver, calls: seq<Call>, calls': seq<Call>)
    requires Fit(s.st, en) && |en| == NumSensors(chip)
    requires var h, h' := Calls(chip, en, capacity, s, calls), Calls(chip, en, other, s, calls');
             h.fetched == h'.fetched && h.after.queue == h'.after.queue == []
    ensures var h, h' := Calls(chip, en, capacity, s, calls), Calls(chip, en, other, s, calls');
            h.out == h'.out && h.after == h'.after
  {
    hide Calls;
    var h, h' := Calls(chip, en, capacity, s, calls), Calls(chip, en, other, s, calls');
    BatchingIsInvisible(chip, en, capacity, s, calls);
    BatchingIsInvisible(chip, en, other, s, calls');
    assert h.out + [] == h.out && h'.out + [] == h'.out;
  }

  /** At any time, with any batching, each of two output streams is a prefix of the other. */
  lemma StreamsArePrefixes(
    chip: Chip, en: seq<bool>, capacity: nat, other: nat, s: Driver, calls: seq<Call>, calls': seq<Call>)
    requires Fit(s.st, en) && |en| == NumSensors(chip)
    requires Calls(chip, en, capacity, s, calls).fetched <= Calls(chip, en, other, s, calls').fetched
    ensures var out, out' := Calls(chip, en, capacity, s, calls).out, Calls(chip, en, other, s, calls').out;
            out <= out' || out' <= out
  {
    hide Calls, Run;
    var h, h' := Calls(chip, en, capacity, s, calls), Calls(chip, en, other, s, calls');
    BatchingIsInvisible(chip, en, capacity, s, calls);
    BatchingIsInvisible(chip, en, other, s, calls');
    var more := h'.fetched[|h.fetched|..];
    assert s.queue + h'.fetched == (s.queue + h.fetched) + more;
    RunConcat(chip, en, s.st, s.queue + h.fetched, more);
    var whole := Run(chip, en, s.st, s.queue + h'.fetched).out;
    assert h.out <= whole && h'.out <= whole;
  }
}
