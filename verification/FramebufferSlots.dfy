/** The slots of the framebuffer: common/libs/gralloc/alloc_device.cpp and framebuffer_device.cpp. */
module FramebufferSlots {
  import SlotMask

  const PAGE_SIZE: nat := 4096

  function RoundUpToPageSize(x: nat): nat {
    (x + PAGE_SIZE - 1) / PAGE_SIZE * PAGE_SIZE
  }

  // ---- The specification: slots are numbers, and the lowest unused one is taken ----

  function Lowest(live: set<nat>, n: nat, from: nat): (i: nat)
    requires from <= n
    ensures from <= i <= n
    ensures forall j :: from <= j < i ==> j in live
    ensures i < n ==> i !in live
    decreases n - from
  {
    if from == n || from !in live then from else Lowest(live, n, from + 1)
  }

  datatype Op = Alloc(size: nat) | Free(slot: nat)

  /** What one request does to the set of live slots, when there are `n` of them. */
  function Serve(live: set<nat>, n: nat, op: Op): set<nat> {
    match op
    case Alloc(_) => var i := Lowest(live, n, 0); if i < n then live + {i} else live
    case Free(slot) => live - {slot}
  }

  function ServeAll(n: nat, ops: seq<Op>): set<nat> {
    if ops == [] then {} else Serve(ServeAll(n, ops[..|ops| - 1]), n, ops[|ops| - 1])
  }

  /** Only what is live is freed. */
  predicate Legal(n: nat, ops: seq<Op>) {
    ops == [] ||
    (var front := ops[..|ops| - 1];
     var op := ops[|ops| - 1];
     Legal(n, front) && (op.Free? ==> op.slot in ServeAll(n, front)))
  }

  lemma {:induction false} LegalPrefix(n: nat, ops: seq<Op>, k: nat)
    requires k <= |ops| && Legal(n, ops)
    ensures Legal(n, ops[..k])
    decreases |ops|
  {
    if k == |ops| {
      assert ops[..k] == ops;
    } else {
      LegalPrefix(n, ops[..|ops| - 1], k);
      assert ops[..|ops| - 1][..k] == ops[..k];
    }
  }

  /** In every run: how many requests got a slot, less how many were freed, is how many are live; at most `n`. */
  function Balance(n: nat, ops: seq<Op>): int {
    if ops == [] then 0
    else
      var front := ops[..|ops| - 1];
      Balance(n, front)
      + match ops[|ops| - 1]
        case Alloc(_) => if Lowest(ServeAll(n, front), n, 0) < n then 1 else 0
        case Free(_) => -1
  }

  lemma {:induction false} LiveIsBalance(n: nat, ops: seq<Op>)
    requires Legal(n, ops)
    ensures |ServeAll(n, ops)| == Balance(n, ops)
    ensures forall i :: i in ServeAll(n, ops) ==> 0 <= i < n
  {
    if ops != [] {
      LiveIsBalance(n, ops[..|ops| - 1]);
    }
  }

  // ---- The arithmetic of slots ----

  lemma Ordered(p: nat, q: nat, d: nat)
    ensures p < q ==> p * d + d <= q * d
  {
    if p < q {
      Monotone(d, p + 1, q);
      Distribute(p, d);
    }
  }

  /** The division that frees a handle finds the slot whose address was computed by adding. */
  lemma DivisionRecoversSlot(i: nat, bufferSize: nat)
    requires bufferSize > 0
    ensures (i * bufferSize) / bufferSize == i
  {
    var x := i * bufferSize;
    var q := x / bufferSize;
    assert x == q * bufferSize + x % bufferSize;
    Ordered(i, q, bufferSize);
    Ordered(q, i, bufferSize);
  }

  /** Every slot lies inside the mapping. */
  lemma SlotInside(lineLength: nat, yres: nat, yresVirtual: nat, i: nat)
    requires yres > 0 && i < yresVirtual / yres
    ensures 0 <= i * (lineLength * yres)
    ensures i * (lineLength * yres) + lineLength * yres <= RoundUpToPageSize(lineLength * yresVirtual)
  {
    var n := yresVirtual / yres;
    assert (i + 1) * yres <= n * yres <= yresVirtual by {
      Monotone(yres, i + 1, n);
    }
    Monotone(lineLength, (i + 1) * yres, yresVirtual);
    assert (i + 1) * (lineLength * yres) == ((i + 1) * yres) * lineLength by {
      Reassociate(i + 1, lineLength, yres);
    }
    Distribute(i, lineLength * yres);
    Rounded(lineLength * yresVirtual);
  }

  lemma Rounded(x: nat)
    ensures x <= RoundUpToPageSize(x)
  {
  }

  lemma Monotone(a: nat, b: nat, c: nat)
    requires b <= c
    ensures b * a <= c * a && a * b <= a * c && a * c == c * a
  {
  }

  lemma Reassociate(a: nat, b: nat, c: nat)
    ensures a * (b * c) == (a * c) * b
  {
  }

  lemma Distribute(i: nat, s: nat)
    ensures (i + 1) * s == i * s + s && i * s >= 0
  {
  }

  /** Two slots do not overlap. */
  lemma SlotsDisjoint(i: nat, j: nat, bufferSize: nat)
    requires i != j
    ensures i * bufferSize + bufferSize <= j * bufferSize || j * bufferSize + bufferSize <= i * bufferSize
  {
    if i < j {
      Distribute(i, bufferSize);
      Monotone(bufferSize, i + 1, j);
    } else {
      Distribute(j, bufferSize);
      Monotone(bufferSize, j + 1, i);
    }
  }

  // ---- The allocator ----

  /** `private_handle_t`, as far as the framebuffer is concerned. */
  class PrivateHandle {
    const size: nat
    const base: int
    const offset: int

    constructor (size: nat, base: int, offset: int)
      ensures this.size == size && this.base == base && this.offset == offset
    {
      this.size, this.base, this.offset := size, base, offset;
    }
  }

  /** No memory; a regular buffer of the given size, as a fallback for a single buffer; or a slot. */
  datatype Allocation = NoMemory | Regular(bytes: nat) | Slot(handle: PrivateHandle)

  class PrivateModule {
    /** The mapped framebuffer and its screen information. */
    const base: int
    const fbSize: nat
    const lineLength: nat
    const yres: nat
    const yresVirtual: nat
    const numBuffers: nat

    var bufferMask: bv32

    /** The live handles by slot. */
    ghost var live: map<nat, PrivateHandle>

    /** Bit `i` is set exactly when the handle in slot `i` is live, and its address is that of the slot. */
    ghost predicate Valid()
      reads this
    {
      && lineLength > 0 && yres > 0 && numBuffers == yresVirtual / yres < 32
      && fbSize == RoundUpToPageSize(lineLength * yresVirtual)
      && SlotMask.Fits(bufferMask, numBuffers)
      && (forall i :: 0 <= i < 32 ==> (SlotMask.IsSet(bufferMask, i) <==> i in live))
      && (forall i :: i in live ==> i < numBuffers)
      && (forall i :: i in live ==> live[i].base == base + i * BufferSize() && live[i].offset == i * BufferSize())
    }

    function BufferSize(): nat {
      lineLength * yres
    }

    /** The last part of init_frame_buffer_locked: the framebuffer has been mapped at `base`. */
    constructor (base: int, lineLength: nat, yres: nat, yresVirtual: nat)
      requires lineLength > 0 && yres > 0 && yresVirtual / yres < 32
      ensures Valid() && live == map[]
      ensures this.base == base && this.lineLength == lineLength && this.yres == yres && this.yresVirtual == yresVirtual
    {
      this.base, this.lineLength, this.yres, this.yresVirtual := base, lineLength, yres, yresVirtual;
      fbSize := RoundUpToPageSize(lineLength * yresVirtual);
      numBuffers := yresVirtual / yres;
      bufferMask := 0;
      live := map[];
      new;
      SlotMask.EmptyFits(numBuffers);
    }

    /** The search for the lowest clear bit. */
    method FindSlot() returns (i: nat, vaddr: int)
      requires Valid() && !SlotMask.NoneFree(bufferMask, numBuffers)
      ensures i < numBuffers && i == Lowest(live.Keys, numBuffers, 0)
      ensures vaddr == base + i * BufferSize()
    {
      hide SlotMask.IsSet, SlotMask.Fits, SlotMask.NoneFree;
      SlotMask.FullMask(bufferMask, numBuffers);
      i, vaddr := 0, base;
      while i < numBuffers && SlotMask.IsSet(bufferMask, i)
        invariant 0 <= i <= numBuffers
        invariant vaddr == base + i * BufferSize()
        invariant Lowest(live.Keys, numBuffers, 0) == Lowest(live.Keys, numBuffers, i)
        invariant forall j :: 0 <= j < i ==> SlotMask.IsSet(bufferMask, j)
      {
        Distribute(i, BufferSize());
        vaddr := vaddr + BufferSize();
        i := i + 1;
      }
    }

    /** gralloc_alloc_framebuffer_locked, once the framebuffer is mapped. */
    method AllocFramebuffer(size: nat) returns (r: Allocation)
      requires Valid()
      modifies this
      ensures Valid()
      ensures numBuffers == 1 ==> r == Regular(BufferSize()) && live == old(live)
      ensures numBuffers != 1 ==> !r.Regular?
      ensures numBuffers != 1 ==> (r.NoMemory? <==> forall i :: 0 <= i < numBuffers ==> i in old(live))
      ensures r.NoMemory? ==> live == old(live)
      ensures r.Slot? ==> var i := Lowest(old(live).Keys, numBuffers, 0);
                          && live == old(live)[i := r.handle] && i < numBuffers
                          && fresh(r.handle) && r.handle.size == size
      ensures numBuffers != 1 ==> live.Keys == Serve(old(live).Keys, numBuffers, Alloc(size))
    {
      hide SlotMask.IsSet, SlotMask.Fits, SlotMask.NoneFree, SlotMask.With;
      if numBuffers == 1 {
        return Regular(BufferSize());
      }
      SlotMask.FullMask(bufferMask, numBuffers);
      if SlotMask.NoneFree(bufferMask, numBuffers) {
        return NoMemory;
      }
      var i, vaddr := FindSlot();
      ghost var before := bufferMask;
      SlotMask.IndexBelow(i);
      bufferMask := SlotMask.With(bufferMask, SlotMask.Index(i));
      var handle := new PrivateHandle(size, vaddr, vaddr - base);
      live := live[i := handle];
      SlotMask.StaysInside(before, i, numBuffers);
      forall j | 0 <= j < 32 ensures SlotMask.IsSet(bufferMask, j) <==> j in live {
        SlotMask.SetAndClear(before, i, j);
      }
      r := Slot(handle);
    }

    /** The framebuffer branch of alloc_device_free. */
    method Free(handle: PrivateHandle)
      requires Valid() && handle in live.Values
      modifies this
      ensures Valid()
      ensures exists i :: i in old(live) && old(live)[i] == handle
      ensures forall i | i in old(live) && old(live)[i] == handle :: live == old(live) - {i}
      ensures handle !in live.Values
    {
      hide SlotMask.IsSet, SlotMask.Fits, SlotMask.NoneFree, SlotMask.Without;
      ghost var i :| i in live && live[i] == handle;
      var index := (handle.base - base) / BufferSize();
      assert index == i by {
        DivisionRecoversSlot(i, BufferSize());
      }
      ghost var before := bufferMask;
      SlotMask.IndexBelow(index);
      bufferMask := SlotMask.Without(bufferMask, SlotMask.Index(index));
      live := live - {i};
      SlotMask.StaysInside(before, i, numBuffers);
      forall j | 0 <= j < 32 ensures SlotMask.IsSet(bufferMask, j) <==> j in live {
        SlotMask.SetAndClear(before, i, j);
      }
      forall j | j in old(live) && j != i ensures old(live)[j] != handle {
        SlotsDisjoint(i, j, BufferSize());
      }
    }

    /** Live slots are disjoint and inside the mapping, and their handles distinct. */
    lemma LiveSlots(i: nat, j: nat)
      requires Valid() && i in live && j in live
      ensures base <= live[i].base && live[i].base + BufferSize() <= base + fbSize
      ensures i != j ==> live[i].base + BufferSize() <= live[j].base || live[j].base + BufferSize() <= live[i].base
    {
      hide SlotMask.IsSet, SlotMask.Fits;
      SlotInside(lineLength, yres, yresVirtual, i);
      if i != j {
        SlotsDisjoint(i, j, BufferSize());
      }
    }

    /** One request of a caller that keeps the handles it got, by slot. */
    method ServeOne(op: Op, held: map<nat, PrivateHandle>) returns (held': map<nat, PrivateHandle>)
      requires Valid() && held == live && numBuffers != 1
      requires op.Free? ==> op.slot in live
      modifies this
      ensures Valid() && held' == live
      ensures live.Keys == Serve(old(live.Keys), numBuffers, op)
    {
      hide SlotMask.IsSet, SlotMask.Fits;
      held' := held;
      match op {
        case Alloc(size) =>
          var r := AllocFramebuffer(size);
          if r.Slot? {
            DivisionRecoversSlot(Lowest(held.Keys, numBuffers, 0), BufferSize());
            held' := held[(r.handle.base - base) / BufferSize() := r.handle];
          }
        case Free(slot) =>
          Free(held[slot]);
          held' := held - {slot};
      }
    }

    /** Any legal run of requests: the mask serves each as the specification does. */
    method Run(ops: seq<Op>)
      requires Valid() && live == map[] && numBuffers != 1
      requires Legal(numBuffers, ops)
      modifies this
      ensures Valid() && live.Keys == ServeAll(numBuffers, ops)
    {
      hide Valid, Serve;
      var n := 0;
      var held: map<nat, PrivateHandle> := map[];
      while n < |ops|
        invariant 0 <= n <= |ops|
        invariant Valid() && held == live
        invariant live.Keys == ServeAll(numBuffers, ops[..n])
      {
        LegalPrefix(numBuffers, ops, n + 1);
        assert ops[..n + 1][..n] == ops[..n];
        held := ServeOne(ops[n], held);
        n := n + 1;
      }
      assert ops[..n] == ops;
    }
  }
}
