/**
  Linear feedback shift registers over any word type, fed one data bit per clock. This is the
  bit-at-a-time definition of a CRC; every CRC routine of the repository is proved to compute it.
*/
module ShiftRegister {
  import opened Bytes

  /**
    `shift` moves the word one place towards the end where `out` reads the bit that leaves,
    `poly` is the feedback and `order` lists the bits of a byte as the register takes them.
  */
  datatype Register<!T> = Register(
    xor: (T, T) -> T, shift: T -> T, out: T -> bool, poly: T, order: byte -> seq<bool>)

  /** One clock: the data bit joins the bit that leaves, and their sum decides the feedback. */
  function Feed<T>(r: Register<T>, c: T, bit: bool): T {
    if r.out(c) != bit then r.xor(r.shift(c), r.poly) else r.shift(c)
  }

  function FeedBits<T>(r: Register<T>, c: T, bits: seq<bool>): T {
    if bits == [] then c else FeedBits(r, Feed(r, c, bits[0]), bits[1..])
  }

  /** The register after every bit of every byte of `s`. */
  function Crc<T>(r: Register<T>, c: T, s: seq<byte>): T
    decreases |s|
  {
    if s == [] then c else Crc(r, FeedBits(r, c, r.order(s[0])), s[1..])
  }

  function ShiftBy<T>(r: Register<T>, d: T, n: nat): T {
    if n == 0 then d else ShiftBy(r, r.shift(d), n - 1)
  }

  lemma {:induction false} CrcConcat<T>(r: Register<T>, c: T, s: seq<byte>, t: seq<byte>)
    ensures Crc(r, c, s + t) == Crc(r, Crc(r, c, s), t)
    decreases |s|
  {
    if s == [] {
      assert s + t == t;
    } else {
      assert (s + t)[1..] == s[1..] + t;
      CrcConcat(r, FeedBits(r, c, r.order(s[0])), s[1..], t);
    }
  }

  lemma CrcByte<T>(r: Register<T>, c: T, s: seq<byte>, b: byte)
    ensures Crc(r, c, s + [b]) == FeedBits(r, Crc(r, c, s), r.order(b))
  {
    CrcConcat(r, c, s, [b]);
    assert [b][1..] == [];
    assert Crc(r, FeedBits(r, Crc(r, c, s), r.order(b)), []) == FeedBits(r, Crc(r, c, s), r.order(b));
  }

  lemma {:induction false} FeedOneMore<T>(r: Register<T>, c: T, bits: seq<bool>, bit: bool)
    ensures FeedBits(r, c, bits + [bit]) == Feed(r, FeedBits(r, c, bits), bit)
  {
    if bits == [] {
      assert bits + [bit] == [bit];
      assert FeedBits(r, Feed(r, c, bit), []) == Feed(r, c, bit);
    } else {
      assert (bits + [bit])[1..] == bits[1..] + [bit];
      FeedOneMore(r, Feed(r, c, bits[0]), bits[1..], bit);
    }
  }

  /** The register is linear: shifting and reading out both distribute over `xor`. */
  ghost predicate Linear<T(!new)>(r: Register<T>) {
    && (forall a, b, c :: Swaps(r, a, b, c))
    && (forall a, b :: ShiftAdds(r, a, b))
  }

  ghost predicate Swaps<T>(r: Register<T>, a: T, b: T, c: T) {
    r.xor(r.xor(a, b), c) == r.xor(r.xor(a, c), b)
  }

  ghost predicate ShiftAdds<T>(r: Register<T>, a: T, b: T) {
    && r.shift(r.xor(a, b)) == r.xor(r.shift(a), r.shift(b))
    && r.out(r.xor(a, b)) == (r.out(a) != r.out(b))
  }

  /**
    Superposition: data lying in the register ahead of the clock acts like data fed bit by bit.
    `d` contributes the difference between the bits `p` that are fed and the bits `q` that count.
  */
  lemma {:induction false} Superpose<T(!new)>(r: Register<T>, c: T, d: T, p: seq<bool>, q: seq<bool>)
    requires Linear(r)
    requires |p| == |q|
    requires forall k :: 0 <= k < |p| ==> r.out(ShiftBy(r, d, k)) == (p[k] != q[k])
    ensures FeedBits(r, r.xor(c, d), p) == r.xor(FeedBits(r, c, q), ShiftBy(r, d, |p|))
    decreases |p|
  {
    if p == [] {
    } else {
      assert r.out(ShiftBy(r, d, 0)) == (p[0] != q[0]);
      assert ShiftAdds(r, c, d) && Swaps(r, r.shift(c), r.shift(d), r.poly);
      assert Feed(r, r.xor(c, d), p[0]) == r.xor(Feed(r, c, q[0]), r.shift(d));
      forall k | 0 <= k < |p| - 1
        ensures r.out(ShiftBy(r, r.shift(d), k)) == (p[1..][k] != q[1..][k])
      {
        assert r.out(ShiftBy(r, d, k + 1)) == (p[k + 1] != q[k + 1]);
      }
      Superpose(r, Feed(r, c, q[0]), r.shift(d), p[1..], q[1..]);
    }
  }

  /** A register fed the very bits that leave it never gets feedback: it only shifts. */
  lemma {:induction false} FeedOwnBits<T>(r: Register<T>, c: T, q: seq<bool>)
    requires forall k :: 0 <= k < |q| ==> r.out(ShiftBy(r, c, k)) == q[k]
    ensures FeedBits(r, c, q) == ShiftBy(r, c, |q|)
    decreases |q|
  {
    if q == [] {
    } else {
      assert r.out(ShiftBy(r, c, 0)) == q[0];
      forall k | 0 <= k < |q| - 1
        ensures r.out(ShiftBy(r, r.shift(c), k)) == q[1..][k]
      {
        assert r.out(ShiftBy(r, c, k + 1)) == q[k + 1];
      }
      FeedOwnBits(r, r.shift(c), q[1..]);
    }
  }

  /** Eight shifts, one at a time, and the bits they bring to the exit. */
  lemma Shift8<T>(r: Register<T>, d0: T, d1: T, d2: T, d3: T, d4: T, d5: T, d6: T, d7: T, d8: T, q: seq<bool>)
    requires d1 == r.shift(d0) && d2 == r.shift(d1) && d3 == r.shift(d2) && d4 == r.shift(d3)
    requires d5 == r.shift(d4) && d6 == r.shift(d5) && d7 == r.shift(d6) && d8 == r.shift(d7)
    requires q == [r.out(d0), r.out(d1), r.out(d2), r.out(d3), r.out(d4), r.out(d5), r.out(d6), r.out(d7)]
    ensures ShiftBy(r, d0, 8) == d8
    ensures forall k :: 0 <= k < 8 ==> r.out(ShiftBy(r, d0, k)) == q[k]
  {
    var s := [d0, d1, d2, d3, d4, d5, d6, d7, d8];
    forall k | 0 <= k <= 8
      ensures ShiftBy(r, d0, k) == s[k]
    {
      ShiftTo(r, s, 0, k);
    }
  }

  lemma {:induction false} ShiftTo<T>(r: Register<T>, s: seq<T>, i: nat, k: nat)
    requires i <= k < |s|
    requires forall j :: 0 <= j < |s| - 1 ==> s[j + 1] == r.shift(s[j])
    ensures ShiftBy(r, s[i], k - i) == s[k]
    decreases k - i
  {
    if i < k {
      ShiftTo(r, s, i + 1, k);
    }
  }

  const SILENCE: seq<bool> := [false, false, false, false, false, false, false, false]

  /** Eight clocks without data, one at a time. */
  lemma Clock8<T>(r: Register<T>, d0: T, d1: T, d2: T, d3: T, d4: T, d5: T, d6: T, d7: T, d8: T)
    requires d1 == Feed(r, d0, false) && d2 == Feed(r, d1, false) && d3 == Feed(r, d2, false)
    requires d4 == Feed(r, d3, false) && d5 == Feed(r, d4, false) && d6 == Feed(r, d5, false)
    requires d7 == Feed(r, d6, false) && d8 == Feed(r, d7, false)
    ensures FeedBits(r, d0, SILENCE) == d8
  {
    ClockTo(r, [d0, d1, d2, d3, d4, d5, d6, d7, d8], 0);
    assert SILENCE[0..] == SILENCE;
  }

  lemma {:induction false} ClockTo<T>(r: Register<T>, s: seq<T>, i: nat)
    requires |s| == 9 && i <= 8
    requires forall k :: 0 <= k < 8 ==> s[k + 1] == Feed(r, s[k], false)
    ensures FeedBits(r, s[i], SILENCE[i..]) == s[8]
    decreases 8 - i
  {
    if i < 8 {
      assert SILENCE[i..][1..] == SILENCE[i + 1..] && SILENCE[i..][0] == SILENCE[i];
      ClockTo(r, s, i + 1);
    }
  }
}
