/**
  What the sensor drivers emit, told from the input stream alone: which sensors a synchronisation event
  lets out, and which values they carry.
*/
module SensorEmission {
  import opened InputEventReader
  import opened SensorPipeline
  import opened Sequences
  import opened Wrappers

  /** The axis codes that feed the fields of one sensor, and the scale of its axes. */
  datatype Row = Row(x: Option<int>, y: Option<int>, z: Option<int>, accuracy: Option<int>, scale: real)

  predicate Feeds(row: Row, code: int) {
    row.x == Some(code) || row.y == Some(code) || row.z == Some(code) || row.accuracy == Some(code)
  }

  /** An axis event of that code. */
  predicate IsAxis(e: InputEvent, code: Option<int>) {
    e.kind == 3 && code == Some(e.code)
  }

  /** The value of the last axis event of a code. */
  function Last(q: seq<InputEvent>, code: Option<int>): (v: Option<int>)
    ensures v.None? <==> forall i :: 0 <= i < |q| ==> !IsAxis(q[i], code)
    ensures v.Some? ==> exists i :: 0 <= i < |q| && IsAxis(q[i], code) && q[i].value == v.value
                                    && forall m :: i < m < |q| ==> !IsAxis(q[m], code)
  {
    if q == [] then None
    else
      var n := |q| - 1;
      if IsAxis(q[n], code) then Some(q[n].value) else Last(q[..n], code)
  }

  /** An axis: the last value scaled, or what was there. */
  function Scaled(was: real, last: Option<int>, scale: real): real {
    if last.None? then was else last.value as real * scale
  }

  /** The event of a sensor after a stream, stamped with a time. */
  function Expected(row: Row, was: SensorEvent, q: seq<InputEvent>, time: int): SensorEvent {
    SensorEvent(was.sensor,
                Scaled(was.x, Last(q, row.x), row.scale),
                Scaled(was.y, Last(q, row.y), row.scale),
                Scaled(was.z, Last(q, row.z), row.scale),
                match Last(q, row.accuracy) case None => was.status case Some(v) => (v + 128) % 256 - 128,
                time)
  }

  /** Does an axis event feed the sensor from position `p` on? */
  ghost predicate Fed(q: seq<InputEvent>, p: nat, row: Row) {
    exists i :: p <= i < |q| && q[i].kind == 3 && Feeds(row, q[i].code)
  }

  /** The axis codes of both chips, sensor by sensor. */
  function Rows(chip: Chip): (rows: seq<Row>)
    ensures |rows| == NumSensors(chip)
  {
    match chip
    case Akm =>
      [Row(Some(0x00), Some(0x01), Some(0x02), None, 9.80665 / 256.0),
       Row(Some(0x03), Some(0x04), Some(0x05), Some(0x07), 0.06),
       Row(Some(0x10), Some(0x11), Some(0x12), Some(0x13), 0.015625)]
    case Al3006 =>
      [Row(Some(0x28), None, None, None, 1.0), Row(Some(0x19), None, None, None, 1.0)]
  }

  // ---- One event ----

  lemma RunOne(chip: Chip, en: seq<bool>, st: State, e: InputEvent)
    requires Fit(st, en) && |en| == NumSensors(chip)
    ensures Run(chip, en, st, [e]) == Handle(chip, en, st, e)
  {
    hide Handle;
    var step := Handle(chip, en, st, e);
    RunNothing(chip, en, step.st);
    assert [e][1..] == [];
    assert step.out + [] == step.out;
  }

  lemma RunAppend(chip: Chip, en: seq<bool>, st: State, q: seq<InputEvent>, e: InputEvent)
    requires Fit(st, en) && |en| == NumSensors(chip)
    ensures var before := Run(chip, en, st, q);
            var step := Handle(chip, en, before.st, e);
            Run(chip, en, st, q + [e]) == Pass(step.st, before.out + step.out)
  {
    hide Handle, Run, Fit;
    RunConcat(chip, en, st, q, [e]);
    RunOne(chip, en, Run(chip, en, st, q).st, e);
  }

  lemma RunNext(chip: Chip, en: seq<bool>, st: State, q: seq<InputEvent>)
    requires Fit(st, en) && |en| == NumSensors(chip) && q != []
    ensures var before := Run(chip, en, st, q[..|q| - 1]);
            var step := Handle(chip, en, before.st, q[|q| - 1]);
            Run(chip, en, st, q) == Pass(step.st, before.out + step.out)
  {
    hide Handle, Run, Fit;
    FrontAndLast(q);
    RunAppend(chip, en, st, q[..|q| - 1], q[|q| - 1]);
  }

  /** An axis event changes the fields its code feeds, and no others. */
  lemma AxisStep(chip: Chip, st: State, code: int, value: int, j: nat)
    requires |st.pending| == |st.events| == NumSensors(chip) && j < NumSensors(chip)
    ensures var row, was, r := Rows(chip)[j], st.events[j], Process(chip, st, code, value);
            && r.pending[j] == (st.pending[j] || Feeds(row, code))
            && r.events[j]
               == SensorEvent(was.sensor,
                              if row.x == Some(code) then value as real * row.scale else was.x,
                              if row.y == Some(code) then value as real * row.scale else was.y,
                              if row.z == Some(code) then value as real * row.scale else was.z,
                              if row.accuracy == Some(code) then (value + 128) % 256 - 128 else was.status,
                              was.timestamp)
  {
  }

  lemma ExpectedNone(row: Row, was: SensorEvent, time: int)
    ensures Expected(row, was, [], time) == was.(timestamp := time)
  {
  }

  lemma ScaledNext(q: seq<InputEvent>, code: Option<int>, was: real, scale: real)
    requires q != []
    ensures var n := |q| - 1;
            Scaled(was, Last(q, code), scale)
            == if IsAxis(q[n], code) then q[n].value as real * scale else Scaled(was, Last(q[..n], code), scale)
  {
  }

  lemma LastNext(q: seq<InputEvent>, code: Option<int>)
    requires q != []
    ensures var n := |q| - 1;
            Last(q, code) == if IsAxis(q[n], code) then Some(q[n].value) else Last(q[..n], code)
  {
  }

  lemma ExpectedNext(row: Row, was: SensorEvent, q: seq<InputEvent>, time: int)
    requires q != []
    ensures var e, front := q[|q| - 1], Expected(row, was, q[..|q| - 1], time);
            Expected(row, was, q, time)
            == if e.kind != 3 then front
               else SensorEvent(front.sensor,
                                if row.x == Some(e.code) then e.value as real * row.scale else front.x,
                                if row.y == Some(e.code) then e.value as real * row.scale else front.y,
                                if row.z == Some(e.code) then e.value as real * row.scale else front.z,
                                if row.accuracy == Some(e.code) then (e.value + 128) % 256 - 128 else front.status,
                                time)
  {
    hide Last, Scaled;
    ScaledNext(q, row.x, was.x, row.scale);
    ScaledNext(q, row.y, was.y, row.scale);
    ScaledNext(q, row.z, was.z, row.scale);
    LastNext(q, row.accuracy);
  }

  lemma FlushKeepsFields(st: State, time: int, j: nat, t: int)
    requires |st.pending| == |st.events| && j < |st.events|
    ensures FlushState(st, time).events[j].(timestamp := t) == st.events[j].(timestamp := t)
  {
  }

  /** Whatever the time in it, an event has the fields expected of the stream. */
  lemma {:induction false} FieldsAre(chip: Chip, en: seq<bool>, st: State, q: seq<InputEvent>, j: nat, time: int)
    requires Fit(st, en) && |en| == NumSensors(chip) && j < |en|
    ensures Run(chip, en, st, q).st.events[j].(timestamp := time) == Expected(Rows(chip)[j], st.events[j], q, time)
    decreases |q|
  {
    hide Run, Process, Rows, Expected, FlushState, FlushOut;
    if q == [] {
      RunNothing(chip, en, st);
      ExpectedNone(Rows(chip)[j], st.events[j], time);
    } else {
      var n := |q| - 1;
      var before := Run(chip, en, st, q[..n]).st;
      FieldsAre(chip, en, st, q[..n], j, time);
      RunNext(chip, en, st, q);
      ExpectedNext(Rows(chip)[j], st.events[j], q, time);
      AxisStep(chip, before, q[n].code, q[n].value, j);
      FlushKeepsFields(before, q[n].time, j, time);
    }
  }

  /** A sensor is pending if it was fed since the last synchronisation event before `p`. */
  lemma {:induction false} PendingIs(chip: Chip, en: seq<bool>, st: State, q: seq<InputEvent>, p: nat, j: nat)
    requires Fit(st, en) && |en| == NumSensors(chip) && j < |en|
    requires p <= |q| && (p > 0 ==> q[p - 1].kind == 0) && forall i :: p <= i < |q| ==> q[i].kind != 0
    ensures Run(chip, en, st, q).st.pending[j] <==> (p == 0 && st.pending[j]) || Fed(q, p, Rows(chip)[j])
    decreases |q|
  {
    hide Run, Process, Feeds, Rows;
    if q == [] {
      RunNothing(chip, en, st);
    } else {
      var n := |q| - 1;
      RunNext(chip, en, st, q);
      if p <= n {
        PendingIs(chip, en, st, q[..n], p, j);
        AxisStep(chip, Run(chip, en, st, q[..n]).st, q[n].code, q[n].value, j);
        FedNext(q, p, Rows(chip)[j]);
      }
    }
  }

  lemma FedNext(q: seq<InputEvent>, p: nat, row: Row)
    requires p < |q|
    ensures var n := |q| - 1;
            Fed(q, p, row) <==> Fed(q[..n], p, row) || (q[n].kind == 3 && Feeds(row, q[n].code))
  {
    hide Feeds;
    var n := |q| - 1;
    assert forall i :: p <= i < n ==> q[..n][i] == q[i];
    if q[n].kind == 3 && Feeds(row, q[n].code) {
      assert p <= n < |q|;
    }
  }

  // ---- What is emitted ----

  /** What sensor `j` contributes. */
  function Part(emits: bool, e: SensorEvent): seq<SensorEvent> {
    if emits then [e] else []
  }

  lemma FlushParts(st: State, en: seq<bool>, time: int)
    requires Fit(st, en) && 2 <= |en| <= 3
    ensures FlushOut(st, en, time, 0)
            == Part(en[0] && st.pending[0], st.events[0].(timestamp := time))
               + Part(en[1] && st.pending[1], st.events[1].(timestamp := time))
               + if |en| == 2 then [] else Part(en[2] && st.pending[2], st.events[2].(timestamp := time))
  {
    assert FlushOut(st, en, time, |en|) == [];
    if |en| == 3 {
      assert FlushOut(st, en, time, 2) == Part(en[2] && st.pending[2], st.events[2].(timestamp := time));
    }
    assert FlushOut(st, en, time, 0)
           == Part(en[0] && st.pending[0], st.events[0].(timestamp := time)) + FlushOut(st, en, time, 1);
  }

  /**
    The emission law. `p` is the position behind the last synchronisation event before the one at the
    end of `q`. That one emits, in the order of the sensors, exactly those that are enabled and were fed
    by an axis event from `p` on (or, with no synchronisation event before, were pending at the start).
    Each field of an emitted event is the last value of its code, in all of the stream, times its scale;
    a field whose code never came is as it was. Other events emit nothing.
  */
  lemma EmissionLaw(chip: Chip, en: seq<bool>, st: State, q: seq<InputEvent>, p: nat, rows: seq<Row>)
    requires Fit(st, en) && |en| == NumSensors(chip) && q != []
    requires rows == if chip == Akm then
                       [Row(Some(0x00), Some(0x01), Some(0x02), None, 9.80665 / 256.0),
                        Row(Some(0x03), Some(0x04), Some(0x05), Some(0x07), 0.06),
                        Row(Some(0x10), Some(0x11), Some(0x12), Some(0x13), 0.015625)]
                     else [Row(Some(0x28), None, None, None, 1.0), Row(Some(0x19), None, None, None, 1.0)]
    requires p < |q| && (p > 0 ==> q[p - 1].kind == 0) && forall i :: p <= i < |q| - 1 ==> q[i].kind != 0
    ensures |en| == |rows|
    ensures var front, e := q[..|q| - 1], q[|q| - 1];
            var emits := (j: nat) requires j < |en| =>
                           en[j] && ((p == 0 && st.pending[j]) || Fed(front, p, rows[j]));
            var event := (j: nat) requires j < |en| => Expected(rows[j], st.events[j], front, e.time);
            Run(chip, en, st, q).out
            == Run(chip, en, st, front).out
               + if e.kind != 0 then []
                 else Part(emits(0), event(0)) + Part(emits(1), event(1))
                      + if chip == Akm then Part(emits(2), event(2)) else []
  {
    hide Run, Fed, Expected, FlushOut, FlushState, Process;
    assert rows == Rows(chip);
    var front, e := q[..|q| - 1], q[|q| - 1];
    var before := Run(chip, en, st, front);
    RunNext(chip, en, st, q);
    if e.kind == 0 {
      forall j: nat | j < |en|
        ensures before.st.events[j].(timestamp := e.time) == Expected(rows[j], st.events[j], front, e.time)
        ensures before.st.pending[j] <==> (p == 0 && st.pending[j]) || Fed(front, p, rows[j])
      {
        FieldsAre(chip, en, st, front, j, e.time);
        PendingIs(chip, en, st, front, p, j);
      }
      FlushParts(before.st, en, e.time);
    }
  }

  // ---- One call ----

  /**
    What one call takes and returns. Without room it fails with -22. It reads only when fewer events are
    queued than the reader holds; a failing read is its status, and one that ends inside an event -22.
    Otherwise it takes exactly the events read, returns how many it emits, and stops short of its room
    only with an empty queue.
  */
  lemma CallOutcome(chip: Chip, en: seq<bool>, capacity: nat, s: Driver, c: Call)
    requires Fit(s.st, en) && |en| == NumSensors(chip)
    ensures var r := ReadEvents(chip, en, capacity, s, c);
            var fetched := Fetched(capacity, s, c);
            var asks := c.count >= 1 && |s.queue| < capacity;
            var fails := asks && (c.read.Events? ==> c.read.extra > 0) && (c.read.Failed? ==> c.read.errno > 0);
            && fetched == (if asks && c.read.Events? && c.read.extra == 0 then c.read.events else [])
            && (c.count < 1 ==> r == Returned(s, -22, []))
            && (fails ==> r == Returned(s, if c.read.Failed? then -c.read.errno else -22, []))
            && (c.count >= 1 && !fails && (asks && c.read.Failed? ==> c.read.errno > 0)
                ==> r.status == |r.out| <= c.count && (r.status < c.count ==> r.after.queue == []))
  {
    hide Drain;
    if c.count >= 1 {
      DrainIsPrefixOfRun(chip, en, s.st, s.queue + Fetched(capacity, s, c), c.count);
    }
  }
}
