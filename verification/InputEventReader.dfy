/** InputEventCircularReader of common/libs/libsensors/InputEventReader.cpp. */
module InputEventReader {

  /** `struct input_event`; `time` is the timestamp already converted to nanoseconds. */
  datatype InputEvent = InputEvent(kind: int, code: int, value: int, time: int)

  /**
    The outcome of one `read` from the device: an error number, or whole events followed by `extra`
    bytes of a further one.
  */
  datatype ReadResult = Failed(errno: int) | Events(events: seq<InputEvent>, extra: nat)

  const EINVAL: int := 22

  /** What the kernel guarantees for a read that asks for `room` events. */
  predicate Fits(r: ReadResult, room: nat) {
    match r
    case Failed(errno) => errno > 0
    case Events(events, extra) => |events| + (if extra > 0 then 1 else 0) <= room
  }

  /** The events a read delivers to the reader. */
  function Delivered(r: ReadResult): seq<InputEvent> {
    if r.Events? && r.extra == 0 then r.events else []
  }

  /** The value `fill` returns for a read. */
  function Status(r: ReadResult): int {
    match r
    case Failed(errno) => -errno
    case Events(events, extra) => if extra > 0 then -EINVAL else |events|
  }

  /** The cell that lies `j` places behind cell `curr` in a ring of `capacity` cells. */
  function Cell(capacity: nat, curr: nat, j: nat): int {
    if curr + j < capacity then curr + j else curr + j - capacity
  }

  /** The `used` events that start at cell `curr`, in ring order. */
  function Ring(cells: seq<InputEvent>, capacity: nat, curr: nat, used: nat): (q: seq<InputEvent>)
    requires capacity <= |cells| && used <= capacity && (used > 0 ==> curr < capacity)
    ensures |q| == used
  {
    seq(used, j requires 0 <= j < used => cells[Cell(capacity, curr, j)])
  }

  /** New events behind the queued ones, in cells that no queued event occupies. */
  lemma RingAppend(was: seq<InputEvent>, cells: seq<InputEvent>, capacity: nat, curr: nat, used: nat,
                   events: seq<InputEvent>)
    requires capacity <= |was| && capacity <= |cells| && used + |events| <= capacity
    requires used + |events| > 0 ==> curr < capacity
    requires forall j :: 0 <= j < used ==> cells[Cell(capacity, curr, j)] == was[Cell(capacity, curr, j)]
    requires forall j :: 0 <= j < |events| ==> cells[Cell(capacity, curr, used + j)] == events[j]
    ensures Ring(cells, capacity, curr, used + |events|) == Ring(was, capacity, curr, used) + events
  {
    var q := Ring(cells, capacity, curr, used + |events|);
    forall k | used <= k < used + |events|
      ensures q[k] == events[k - used]
    {
      assert cells[Cell(capacity, curr, used + (k - used))] == events[k - used];
    }
  }

  /**
    A ring of `capacity` cells followed by as many spill cells. `head` and `curr` are the offsets of
    `mHead` and `mCurr` from `mBuffer`; `mBufferEnd` is at offset `capacity`.
  */
  class InputEventCircularReader {
    const buffer: array<InputEvent>
    const capacity: nat
    var head: nat
    var curr: nat
    var freeSpace: int

    ghost predicate Valid()
      reads this
    {
      && buffer.Length == 2 * capacity
      && 0 <= freeSpace <= capacity
      && head <= capacity
      && (if capacity == 0 then curr == 0 else curr < capacity)
      // head is curr plus the number of queued events, modulo the capacity; it may rest at the end
      && var end := curr + Used();
         head == end || head == end - capacity || head == end + capacity
    }

    ghost function Used(): int
      reads this
    {
      capacity - freeSpace
    }

    /** The queued events, oldest first. */
    ghost function Queue(): (q: seq<InputEvent>)
      requires Valid()
      reads this, buffer
      ensures |q| == Used()
    {
      Ring(buffer[..], capacity, curr, Used())
    }

    constructor (numEvents: nat, blank: InputEvent)
      ensures Valid() && fresh(buffer)
      ensures capacity == numEvents && Queue() == []
    {
      buffer := new InputEvent[numEvents * 2](_ => blank);
      capacity := numEvents;
      head, curr, freeSpace := 0, 0, numEvents;
    }

    /** `fill`, with the outcome of the read it makes when there is room. */
    method Fill(r: ReadResult) returns (n: int)
      requires Valid()
      requires freeSpace > 0 ==> Fits(r, freeSpace)
      modifies this, buffer
      ensures Valid()
      ensures old(freeSpace) == 0 ==> n == 0 && Queue() == old(Queue())
      ensures old(freeSpace) > 0 ==> n == Status(r) && Queue() == old(Queue()) + Delivered(r)
    {
      n := 0;
      if freeSpace != 0 {
        match r {
          case Failed(errno) =>
            n := -errno;
            return;
          case Events(events, extra) =>
            CopyIn(events);
            if extra > 0 {
              n := -EINVAL;
              return;
            }
            n := |events|;
            if n != 0 {
              Advance(events);
            }
        }
      }
    }

    /** Moves `mHead` behind the events that a read left there, and wraps what reached the spill cells. */
    method Advance(events: seq<InputEvent>)
      requires Valid() && 0 < |events| <= freeSpace
      requires forall k :: 0 <= k < |events| ==> head + k < buffer.Length && buffer[head + k] == events[k]
      modifies this, buffer
      ensures Valid() && Queue() == old(Queue()) + events
    {
      ghost var cells, used := buffer[..], Used();
      head := head + |events|;
      freeSpace := freeSpace - |events|;
      if head > capacity {
        var s := head - capacity;
        Wrap(s);
        head := s;
      }
      RingAppend(cells, buffer[..], capacity, curr, used, events);
    }

    /**
      The transfer of the read itself, into the cells from `mHead` on: never past the spill cells, and
      never over a queued event. (The bytes of an incomplete event land in the next free cell.)
    */
    method CopyIn(events: seq<InputEvent>)
      requires Valid() && |events| <= freeSpace
      modifies buffer
      ensures forall k :: 0 <= k < buffer.Length && !(head <= k < head + |events|) ==> buffer[k] == old(buffer[k])
      ensures forall k :: 0 <= k < |events| ==> head + k < buffer.Length && buffer[head + k] == events[k]
      ensures Queue() == old(Queue())
    {
      ghost var cells := buffer[..];
      forall k | 0 <= k < |events| {
        buffer[head + k] := events[k];
      }
      RingAppend(cells, buffer[..], capacity, curr, Used(), []);
    }

    /** `memcpy(mBuffer, mBufferEnd, s)`. */
    method Wrap(s: nat)
      requires buffer.Length == 2 * capacity && s <= capacity
      modifies buffer
      ensures forall k :: 0 <= k < s ==> buffer[k] == old(buffer[capacity + k])
      ensures forall k :: s <= k < buffer.Length ==> buffer[k] == old(buffer[k])
    {
      forall k | 0 <= k < s {
        buffer[k] := buffer[capacity + k];
      }
    }

    /** `readEvent`: the cell `*events` points at, and whether an event is there. */
    method ReadEvent() returns (available: bool, at: nat)
      requires Valid()
      ensures available <==> Queue() != []
      ensures available ==> at < buffer.Length && buffer[at] == Queue()[0]
    {
      at := curr;
      available := capacity - freeSpace != 0;
    }

    method Next()
      requires Valid() && Queue() != []
      modifies this
      ensures Valid()
      ensures Queue() == old(Queue())[1..]
    {
      curr := curr + 1;
      freeSpace := freeSpace + 1;
      if curr >= capacity {
        curr := 0;
      }
      assert Queue() == old(Queue())[1..];
    }
  }
}
