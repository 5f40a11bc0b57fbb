/** Bytes, little-endian 16-bit words and the memory cells the C code overlays on byte buffers. */
module Bytes {

  type byte = x: int | 0 <= x < 0x100

  /** The 16-bit word a little-endian CPU loads from two consecutive bytes. */
  function Word(lo: byte, hi: byte): (w: nat)
    ensures w < 0x1_0000
  {
    lo + 0x100 * hi
  }

  /** The two bytes a little-endian CPU stores for a 16-bit value, low byte first. */
  function LittleEndian(w: nat): (s: seq<byte>)
    requires w < 0x1_0000
    ensures |s| == 2 && Word(s[0], s[1]) == w
  {
    [w % 0x100, w / 0x100]
  }

  /** Copies `src` over the bytes of `dst` that start at `at`, as `memcpy` into a buffer does. */
  function Overlay<T>(dst: seq<T>, at: nat, src: seq<T>): (r: seq<T>)
    requires at + |src| <= |dst|
    ensures |r| == |dst|
  {
    dst[..at] + src + dst[at + |src|..]
  }

  lemma OverlayAt<T>(dst: seq<T>, at: nat, src: seq<T>)
    requires at + |src| <= |dst|
    ensures forall i :: 0 <= i < |dst|
                        ==> Overlay(dst, at, src)[i] == if at <= i < at + |src| then src[i - at] else dst[i]
    ensures Overlay(dst, at, src)[at..at + |src|] == src
  {
  }

  /** Two adjacent copies are one copy of the concatenation. */
  lemma OverlayTwice<T>(dst: seq<T>, at: nat, a: seq<T>, b: seq<T>)
    requires at + |a| + |b| <= |dst|
    ensures Overlay(Overlay(dst, at, a), at + |a|, b) == Overlay(dst, at, a + b)
  {
  }

  /** Copies to places that do not meet commute. */
  lemma OverlaySwap<T>(dst: seq<T>, i: nat, a: seq<T>, j: nat, b: seq<T>)
    requires i + |a| <= j && j + |b| <= |dst|
    ensures Overlay(Overlay(dst, i, a), j, b) == Overlay(Overlay(dst, j, b), i, a)
  {
    assert Overlay(Overlay(dst, i, a), j, b) == dst[..i] + a + dst[i + |a|..j] + b + dst[j + |b|..];
  }

  /** A copy leaves everything behind it alone. */
  lemma OverlayBehind<T>(dst: seq<T>, at: nat, src: seq<T>, from: nat)
    requires at + |src| <= from <= |dst|
    ensures Overlay(dst, at, src)[from..] == dst[from..]
  {
  }

  /** `*(unsigned short *)&buffer[at] = w` on a little-endian CPU. */
  method Store16(buffer: array<byte>, at: nat, w: nat)
    requires at + 2 <= buffer.Length && w < 0x1_0000
    modifies buffer
    ensures buffer[..] == Overlay(old(buffer[..]), at, LittleEndian(w))
  {
    buffer[at] := w % 0x100;
    buffer[at + 1] := w / 0x100;
  }
}
