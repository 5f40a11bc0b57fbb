/** The 32-bit mask of framebuffer slots that common/libs/gralloc/alloc_device.cpp shifts and tests. */
module SlotMask {

  // ---- The mask ----

  /** A slot number as the 32-bit word the shifts use. */
  function Index(k: nat): bv32
    requires k < 32
  {
    (k as bv6) as bv32
  }

  /** `1LU << i`. */
  function One(i: bv32): bv32
    requires i < 32
  {
    (1 as bv32) << i
  }

  function And(a: bv32, b: bv32): bv32 { a & b }

  function Or(a: bv32, b: bv32): bv32 { a | b }

  function AndNot(a: bv32, b: bv32): bv32 { a & !b }

  /** `mask | (1LU << i)`, `mask & ~(1 << i)` and `(1LU << n) - 1`. */
  function With(mask: bv32, i: bv32): bv32
    requires i < 32
  {
    Or(mask, One(i))
  }

  function Without(mask: bv32, i: bv32): bv32
    requires i < 32
  {
    AndNot(mask, One(i))
  }

  function Full(n: bv32): bv32
    requires n < 32
  {
    One(n) - 1
  }

  /** Is the mask below `1LU << n`? */
  predicate Within(mask: bv32, n: bv32)
    requires n < 32
  {
    mask <= Full(n)
  }

  /** `mask >= ((1LU << n) - 1)`. */
  predicate Exhausted(mask: bv32, n: bv32)
    requires n < 32
  {
    mask >= Full(n)
  }

  predicate Has(mask: bv32, i: bv32)
    requires i < 32
  {
    And(mask, One(i)) != 0
  }

  /** The lowest `k` bits are all set. */
  predicate Filled(mask: bv32, k: bv32)
    requires k < 32
  {
    mask & Full(k) == Full(k)
  }

  /** Two different bits have none in common. */
  lemma Apart(i: bv32, j: bv32)
    requires i < j < 32
    ensures And(One(i), One(j)) == 0
  {
    var d := j - i;
    assert One(j) == One(i) << d;
  }

  lemma OneIsSet(i: bv32)
    requires i < 32
    ensures One(i) != 0
  {
  }

  lemma Commutes(a: bv32, b: bv32)
    ensures And(a, b) == And(b, a)
  {
  }

  lemma SameBit(m: bv32, b: bv32)
    ensures And(Or(m, b), b) == b && And(AndNot(m, b), b) == 0
  {
  }

  lemma Outside(b: bv32, c: bv32)
    requires And(b, c) == 0
    ensures AndNot(c, b) == c
  {
  }

  lemma OrOutside(m: bv32, b: bv32, c: bv32)
    ensures And(Or(m, b), AndNot(c, b)) == And(m, AndNot(c, b))
  {
  }

  lemma AndNotOutside(m: bv32, b: bv32, c: bv32)
    ensures And(AndNot(m, b), AndNot(c, b)) == And(m, AndNot(c, b))
  {
  }

  lemma OtherBit(m: bv32, b: bv32, c: bv32)
    requires And(b, c) == 0
    ensures And(Or(m, b), c) == And(m, c) && And(AndNot(m, b), c) == And(m, c)
  {
    hide *;
    Outside(b, c);
    OrOutside(m, b, c);
    AndNotOutside(m, b, c);
  }

  lemma HasAfter(m: bv32, i: bv32, j: bv32)
    requires i < 32 && j < 32
    ensures Has(With(m, i), j) <==> i == j || Has(m, j)
    ensures Has(Without(m, i), j) <==> i != j && Has(m, j)
  {
    hide One, And, Or, AndNot;
    if i == j {
      OneIsSet(i);
      SameBit(m, One(i));
    } else {
      if i < j {
        Apart(i, j);
      } else {
        Apart(j, i);
        Commutes(One(i), One(j));
      }
      OtherBit(m, One(i), One(j));
    }
  }

  lemma Bounded(m: bv32, i: bv32, n: bv32)
    requires i < n < 32 && Within(m, n)
    ensures Within(With(m, i), n) && Within(Without(m, i), n)
  {
  }

  lemma FillOne(m: bv32, k: bv32)
    requires k < 31 && Filled(m, k) && Has(m, k)
    ensures Filled(m, k + 1)
  {
  }

  lemma NotFilled(m: bv32, k: bv32, n: bv32)
    requires k < n < 32 && !Has(m, k)
    ensures !Filled(m, n)
  {
  }

  lemma FilledIsFull(m: bv32, n: bv32)
    requires n < 32 && Within(m, n)
    ensures Exhausted(m, n) <==> Filled(m, n)
  {
  }

  lemma EmptyMask(i: bv32, n: bv32)
    requires i < 32 && n < 32
    ensures !Has(0, i) && Within(0, n)
  {
  }

  // ---- Slot numbers ----

  lemma IndexZero()
    ensures Index(0) == 0
  {
  }

  /** The order of six-bit words is that of the numbers they stand for. */
  lemma SixBits(b: bv6, c: bv6)
    requires b as int < c as int
    ensures b < c
  {
  }

  lemma SixBitsNext(b: bv6, c: bv6)
    requires b as int + 1 == c as int
    ensures c == b + 1 && b < 63
  {
    assert b < 63;
    assert (b + 1) as int == b as int + 1;
  }

  lemma WidenOrder(b: bv6, c: bv6)
    ensures b < c ==> b as bv32 < c as bv32
    ensures b < 32 ==> b as bv32 < 32
    ensures b < 63 && c == b + 1 ==> c as bv32 == b as bv32 + 1
  {
  }

  lemma SixBitsOf(k: nat)
    requires k < 32
    ensures (k as bv6) as int == k
  {
  }

  lemma IndexBelow(k: nat)
    requires k < 32
    ensures Index(k) < 32
  {
    SixBitsOf(k);
    SixBits(k as bv6, 32);
    WidenOrder(k as bv6, 32);
  }

  lemma IndexNext(k: nat)
    requires k < 31
    ensures Index(k + 1) == Index(k) + 1
  {
    var b, c := k as bv6, (k + 1) as bv6;
    SixBitsOf(k);
    SixBitsOf(k + 1);
    SixBitsNext(b, c);
    WidenOrder(b, c);
  }

  lemma IndexOrder(j: nat, k: nat)
    requires j < k < 32
    ensures Index(j) < Index(k)
  {
    var b, c := j as bv6, k as bv6;
    SixBitsOf(j);
    SixBitsOf(k);
    SixBits(b, c);
    WidenOrder(b, c);
  }

  predicate IsSet(mask: bv32, k: nat)
    requires k < 32
  {
    IndexBelow(k);
    Has(mask, Index(k))
  }

  /** Setting and clearing one bit leaves the others. */
  lemma SetAndClear(mask: bv32, i: nat, j: nat)
    requires i < 32 && j < 32
    ensures Index(i) < 32
    ensures IsSet(With(mask, Index(i)), j) <==> i == j || IsSet(mask, j)
    ensures IsSet(Without(mask, Index(i)), j) <==> i != j && IsSet(mask, j)
  {
    hide Index, Has, With, Without;
    IndexBelow(i);
    IndexBelow(j);
    if i < j {
      IndexOrder(i, j);
    } else if j < i {
      IndexOrder(j, i);
    }
    HasAfter(mask, Index(i), Index(j));
  }

  lemma {:induction false} FilledBelow(mask: bv32, k: nat)
    requires k < 32 && forall i :: 0 <= i < k ==> IsSet(mask, i)
    ensures Index(k) < 32 && Filled(mask, Index(k))
  {
    hide Index, Has, Filled;
    IndexBelow(k);
    if k == 0 {
      IndexZero();
      FilledNone(mask);
    } else {
      FilledBelow(mask, k - 1);
      IndexNext(k - 1);
      IndexOrder(k - 1, k);
      assert IsSet(mask, k - 1);
      FillOne(mask, Index(k - 1));
    }
  }

  lemma FilledNone(mask: bv32)
    ensures Filled(mask, 0)
  {
  }

  lemma NotFilledAt(mask: bv32, i: nat, n: nat)
    requires i < n < 32 && !IsSet(mask, i)
    ensures Index(n) < 32 && !Filled(mask, Index(n))
  {
    hide Index, Has, Filled;
    IndexBelow(n);
    IndexOrder(i, n);
    NotFilled(mask, Index(i), Index(n));
  }

  predicate Fits(mask: bv32, n: nat)
    requires n < 32
  {
    IndexBelow(n);
    Within(mask, Index(n))
  }

  predicate NoneFree(mask: bv32, n: nat)
    requires n < 32
  {
    IndexBelow(n);
    Exhausted(mask, Index(n))
  }

  lemma NoneFreeIsFilled(mask: bv32, n: nat)
    requires n < 32 && Fits(mask, n)
    ensures Index(n) < 32 && (NoneFree(mask, n) <==> Filled(mask, Index(n)))
  {
    hide Index, Filled, Within, Exhausted;
    IndexBelow(n);
    FilledIsFull(mask, Index(n));
  }

  /** A mask that fits keeps fitting when a bit below the limit is set or cleared. */
  lemma StaysInside(mask: bv32, i: nat, n: nat)
    requires i < n < 32 && Fits(mask, n)
    ensures Index(i) < 32 && Fits(With(mask, Index(i)), n) && Fits(Without(mask, Index(i)), n)
  {
    hide Index, With, Without, Within;
    IndexBelow(n);
    IndexOrder(i, n);
    Bounded(mask, Index(i), Index(n));
  }

  lemma EmptyFits(n: nat)
    requires n < 32
    ensures Fits(0, n)
    ensures forall i :: 0 <= i < 32 ==> !IsSet(0, i)
  {
    hide Index, Has, Within;
    IndexBelow(n);
    forall i | 0 <= i < 32 ensures !IsSet(0, i) {
      IndexBelow(i);
      EmptyMask(Index(i), Index(n));
    }
    EmptyMask(Index(n), Index(n));
  }

  /** The test for a full mask is exact: it holds if and only if every slot's bit is set. */
  lemma FullMask(mask: bv32, n: nat)
    requires n < 32 && Fits(mask, n)
    ensures NoneFree(mask, n) <==> forall i :: 0 <= i < n ==> IsSet(mask, i)
  {
    hide Index, Filled, IsSet, Fits, NoneFree;
    NoneFreeIsFilled(mask, n);
    if forall i :: 0 <= i < n ==> IsSet(mask, i) {
      FilledBelow(mask, n);
    } else {
      var i :| 0 <= i < n && !IsSet(mask, i);
      NotFilledAt(mask, i, n);
    }
  }
}
