/**
  The one's-complement checksum of RFC 1071 and the three routines that compute it with a 32-bit
  accumulator and two folds: frm_chk, boot_checksum and the even-address branch of calc_checksum.
*/
module Checksum {
  import opened Bytes

  const WRAP: nat := 0x1_0000_0000

  /** The number of 16-bit words a 32-bit accumulator takes without overflowing, whatever they are. */
  const MAX_WORDS: nat := 65537

  // ---- RFC 1071, sections 1 and 2 ----

  /** 16-bit addition with end-around carry. */
  function OnesAdd(a: nat, b: nat): (sum: nat)
    requires a < 0x1_0000 && b < 0x1_0000
    ensures sum < 0x1_0000
  {
    if a + b < 0x1_0000 then a + b else a + b - 0xFFFF
  }

  /** The one's-complement sum of the 16-bit words of `s`; an odd byte at the end is padded with zero. */
  function OnesSum(s: seq<byte>): (sum: nat)
    ensures sum < 0x1_0000
    decreases |s|
  {
    if s == [] then 0
    else if |s| == 1 then Word(s[0], 0)
    else OnesAdd(Word(s[0], s[1]), OnesSum(s[2..]))
  }

  lemma ZeroWord(s: seq<byte>)
    ensures OnesSum([0, 0] + s) == OnesSum(s)
  {
    assert ([0, 0] + s)[2..] == s;
  }

  function Rfc1071(s: seq<byte>): (sum: nat)
    ensures sum < 0x1_0000
  {
    0xFFFF - OnesSum(s)
  }

  // ---- Plain sums ----

  /** The unbounded sum of the words of `s`. */
  function WordSum(s: seq<byte>): nat
    decreases |s|
  {
    if s == [] then 0
    else if |s| == 1 then s[0]
    else Word(s[0], s[1]) + WordSum(s[2..])
  }

  /** The representative of `n` modulo 0xFFFF in 1..0xFFFF, and 0 for 0. */
  function Residue(n: nat): (r: nat)
    ensures r < 0x1_0000
    ensures r == 0 <==> n == 0
    ensures n < 0x1_0000 ==> r == n
  {
    if n == 0 then 0 else (n - 1) % 0xFFFF + 1
  }

  lemma ResidueStep(n: nat)
    requires n > 0
    ensures Residue(n + 0xFFFF) == Residue(n)
  {
    assert (n - 1 + 0xFFFF) % 0xFFFF == (n - 1) % 0xFFFF;
  }

  lemma {:induction false} ResidueMultiple(n: nat, k: nat)
    requires n > 0
    ensures Residue(n + k * 0xFFFF) == Residue(n)
  {
    if k > 0 {
      ResidueMultiple(n, k - 1);
      ResidueStep(n + (k - 1) * 0xFFFF);
    }
  }

  lemma ResidueDecompose(n: nat)
    ensures exists k: nat :: n == Residue(n) + k * 0xFFFF
  {
    if n == 0 {
      assert n == Residue(n) + 0 * 0xFFFF;
    } else {
      assert n == Residue(n) + ((n - 1) / 0xFFFF) * 0xFFFF;
    }
  }

  lemma ResidueAdd(a: nat, n: nat)
    requires a < 0x1_0000
    ensures Residue(a + n) == OnesAdd(a, Residue(n))
  {
    ResidueDecompose(n);
    var k: nat :| n == Residue(n) + k * 0xFFFF;
    var r := Residue(n);
    if a + r == 0 {
    } else {
      ResidueMultiple(a + r, k);
      assert a + n == (a + r) + k * 0xFFFF;
    }
  }

  /** The one's-complement sum is the plain sum reduced once at the end. */
  lemma {:induction false} OnesSumIsResidue(s: seq<byte>)
    ensures OnesSum(s) == Residue(WordSum(s))
    decreases |s|
  {
    if |s| >= 2 {
      OnesSumIsResidue(s[2..]);
      ResidueAdd(Word(s[0], s[1]), WordSum(s[2..]));
    }
  }

  lemma {:induction false} WordSumConcat(s: seq<byte>, t: seq<byte>)
    requires |s| % 2 == 0
    ensures WordSum(s + t) == WordSum(s) + WordSum(t)
    decreases |s|
  {
    if s == [] {
      assert s + t == t;
    } else {
      assert (s + t)[2..] == s[2..] + t;
      WordSumConcat(s[2..], t);
    }
  }

  lemma {:induction false} WordSumBound(s: seq<byte>)
    ensures WordSum(s) <= (|s| + 1) / 2 * 0xFFFF
    decreases |s|
  {
    if |s| >= 2 {
      WordSumBound(s[2..]);
    }
  }

  /** A zero byte after an odd number of bytes does not change the sum. */
  lemma WordSumPad(s: seq<byte>)
    requires |s| % 2 == 1
    ensures WordSum(s + [0]) == WordSum(s)
  {
    var last := s[|s| - 1..];
    assert s == s[..|s| - 1] + last;
    assert s + [0] == s[..|s| - 1] + (last + [0]);
    WordSumConcat(s[..|s| - 1], last);
    WordSumConcat(s[..|s| - 1], last + [0]);
    assert (last + [0])[2..] == [];
  }

  // ---- What the routines compute ----

  /** `sum = (sum >> 16) + (sum & 0xffff); sum += sum >> 16;` and the low half of `~sum`. */
  function FoldAndComplement(sum: nat): (r: nat)
    requires sum < WRAP
    ensures r < 0x1_0000
  {
    var once := sum / 0x1_0000 + sum % 0x1_0000;
    var twice := once + once / 0x1_0000;
    (WRAP - 1 - twice) % 0x1_0000
  }

  /** Two folds always suffice. */
  lemma TwoFolds(sum: nat)
    requires sum < WRAP
    ensures FoldAndComplement(sum) == 0xFFFF - Residue(sum)
  {
    var hi, lo := sum / 0x1_0000, sum % 0x1_0000;
    var once := hi + lo;
    assert sum == once + hi * 0xFFFF;
    if once > 0 {
      ResidueMultiple(once, hi);
    }
    assert Residue(sum) == Residue(once);
    if once >= 0x1_0000 {
      ResidueStep(once - 0xFFFF);
    }
  }

  /** The checksum the routines return for `s`: the accumulator holds the plain sum modulo 2^32. */
  function Computed(s: seq<byte>): (r: nat)
    ensures r < 0x1_0000
  {
    FoldAndComplement(WordSum(s) % WRAP)
  }

  /**
    The routines agree with RFC 1071 exactly when the number of times the accumulator wrapped is a
    multiple of 0xFFFF and it did not wrap to zero.
  */
  lemma ComputedIsRfc1071Iff(s: seq<byte>)
    ensures Computed(s) == Rfc1071(s)
            <==> (WordSum(s) / WRAP) % 0xFFFF == 0 && (WordSum(s) % WRAP == 0 ==> WordSum(s) / WRAP == 0)
  {
    var q, r := WordSum(s) / WRAP, WordSum(s) % WRAP;
    OnesSumIsResidue(s);
    TwoFolds(r);
    assert WordSum(s) == r + q + (q * 0x1_0001) * 0xFFFF;
    if r > 0 {
      ResidueMultiple(r + q, q * 0x1_0001);
      ResidueAddModulo(r, q);
    } else if q > 0 {
      assert Residue(WordSum(s)) != 0;
    }
  }

  lemma ResidueAddModulo(r: nat, q: nat)
    requires r > 0
    ensures Residue(r + q) == Residue(r) <==> q % 0xFFFF == 0
  {
    var k, m := q / 0xFFFF, q % 0xFFFF;
    assert r + q == (r + m) + k * 0xFFFF;
    ResidueMultiple(r + m, k);
    ResidueAdd(m, r);
    Reordered(r, m);
  }

  lemma Reordered(r: nat, m: nat)
    ensures Residue(r + m) == Residue(m + r)
  {
  }

  /** Up to 65537 words the accumulator cannot overflow and the routines compute RFC 1071. */
  lemma ComputedIsRfc1071(s: seq<byte>)
    requires |s| <= 2 * MAX_WORDS
    ensures Computed(s) == Rfc1071(s)
  {
    WordSumBound(s);
    assert WordSum(s) <= MAX_WORDS * 0xFFFF < WRAP;
    ComputedIsRfc1071Iff(s);
  }

  lemma {:induction false} WordSumOnes(n: nat)
    ensures WordSum(seq(2 * n, _ => 0xFF)) == n * 0xFFFF
  {
    var s: seq<byte> := seq(2 * n, _ => 0xFF);
    if n > 0 {
      WordSumOnes(n - 1);
      assert s[2..] == seq(2 * (n - 1), _ => 0xFF);
    }
  }

  /** One word more is too many: 65538 words of 0xFFFF give a different checksum. */
  lemma MaxWordsIsTight()
    ensures var s: seq<byte> := seq(2 * (MAX_WORDS + 1), _ => 0xFF);
            Computed(s) != Rfc1071(s)
  {
    var s: seq<byte> := seq(2 * (MAX_WORDS + 1), _ => 0xFF);
    WordSumOnes(MAX_WORDS + 1);
    assert WordSum(s) == WRAP + 0xFFFE;
    ComputedIsRfc1071Iff(s);
  }

  /** RFC 1071: data of even length and its checksum behind it have checksum zero. */
  lemma SealRfc1071(s: seq<byte>)
    requires |s| % 2 == 0
    ensures Rfc1071(s + LittleEndian(Rfc1071(s))) == 0
  {
    var c := Rfc1071(s);
    OnesSumIsResidue(s);
    OnesSumIsResidue(s + LittleEndian(c));
    WordSumConcat(s, LittleEndian(c));
    assert LittleEndian(c)[2..] == [];
    ResidueAdd(c, WordSum(s));
    Reordered(WordSum(s), c);
  }

  /** Storing the checksum at the next even offset makes the checksum of the whole buffer zero. */
  lemma SealEven(s: seq<byte>)
    requires |s| % 2 == 0 && |s| + 2 <= 2 * MAX_WORDS
    ensures Computed(s + LittleEndian(Computed(s))) == 0
  {
    hide Computed, Rfc1071, LittleEndian;
    ComputedIsRfc1071(s);
    ComputedIsRfc1071(s + LittleEndian(Computed(s)));
    SealRfc1071(s);
  }

  /** An odd buffer is sealed after one zero byte of padding. */
  lemma SealOdd(s: seq<byte>)
    requires |s| % 2 == 1 && |s| + 3 <= 2 * MAX_WORDS
    ensures Computed(s + [0] + LittleEndian(Computed(s))) == 0
  {
    WordSumPad(s);
    SealEven(s + [0]);
  }

  // ---- The routines ----

  /** The accumulator after the first `i` bytes of `s`. */
  function Sum32(s: seq<byte>, i: nat): (sum: nat)
    requires i <= |s|
    ensures sum < WRAP
  {
    WordSum(s[..i]) % WRAP
  }

  lemma AddModulo(a: nat, w: nat)
    ensures (a % WRAP + w) % WRAP == (a + w) % WRAP
  {
    assert a + w == a % WRAP + w + WRAP * (a / WRAP);
  }

  lemma SumStep(s: seq<byte>, i: nat)
    requires i + 2 <= |s| && i % 2 == 0
    ensures Sum32(s, i + 2) == (Sum32(s, i) + Word(s[i], s[i + 1])) % WRAP
  {
    assert s[..i + 2] == s[..i] + s[i..i + 2];
    WordSumConcat(s[..i], s[i..i + 2]);
    assert s[i..i + 2][2..] == [];
    AddModulo(WordSum(s[..i]), Word(s[i], s[i + 1]));
  }

  lemma SumLast(s: seq<byte>, i: nat)
    requires i + 1 == |s| && i % 2 == 0
    ensures Sum32(s, i + 1) == (Sum32(s, i) + s[i]) % WRAP
  {
    assert s[..i + 1] == s[..i] + s[i..];
    WordSumConcat(s[..i], s[i..]);
    AddModulo(WordSum(s[..i]), s[i]);
  }

  lemma SumDone(s: seq<byte>)
    ensures FoldAndComplement(Sum32(s, |s|)) == Computed(s)
  {
    assert s[..|s|] == s;
  }

  /** frm_chk: two words per pass, then up to three remaining bytes. */
  method FrmChk(src: array<byte>, at: nat, len: nat) returns (r: nat)
    requires at + len <= src.Length
    ensures r == Computed(src[at..at + len])
  {
    hide WordSum, Sum32, Computed;
    ghost var s := src[at..at + len];
    var sum, left, p := 0, len, 0;
    SumNone(s);
    while left > 3
      invariant 0 <= left && p + left == len && 0 <= p && p % 2 == 0
      invariant sum == Sum32(s, p)
    {
      SumStep(s, p);
      sum := (sum + Word(src[at + p], src[at + p + 1])) % WRAP;
      p := p + 2;
      SumStep(s, p);
      sum := (sum + Word(src[at + p], src[at + p + 1])) % WRAP;
      p := p + 2;
      left := left - 4;
    }
    match left {
      case 2 =>
        SumStep(s, p);
        sum := (sum + Word(src[at + p], src[at + p + 1])) % WRAP;
      case 3 =>
        SumStep(s, p);
        sum := (sum + Word(src[at + p], src[at + p + 1])) % WRAP;
        p := p + 2;
        SumLast(s, p);
        sum := (sum + src[at + p]) % WRAP;
      case 1 =>
        SumLast(s, p);
        sum := (sum + src[at + p]) % WRAP;
      case _ =>
    }
    SumDone(s);
    r := Finish(sum);
  }

  lemma SumNone(s: seq<byte>)
    ensures Sum32(s, 0) == 0
  {
    assert s[..0] == [];
  }

  /** The two folds and the complement that end all three routines. */
  method Finish(start: nat) returns (r: nat)
    requires start < WRAP
    ensures r == FoldAndComplement(start)
  {
    var sum := start;
    sum := sum / 0x1_0000 + sum % 0x1_0000;
    sum := sum + sum / 0x1_0000;
    r := (WRAP - 1 - sum) % 0x1_0000;
  }

  /** boot_checksum: one word per pass, then the odd byte. */
  method BootChecksum(src: array<byte>, at: nat, len: nat) returns (r: nat)
    requires at + len <= src.Length
    ensures r == Computed(src[at..at + len])
  {
    hide WordSum, Sum32, Computed;
    ghost var s := src[at..at + len];
    var sum := 0;
    var size1, size2, p := len / 2, len % 2, 0;
    SumNone(s);
    if len != 0 {
      while size1 > 0
        invariant 0 <= size1 && 0 <= p && p + 2 * size1 + size2 == len && p % 2 == 0
        invariant sum == Sum32(s, p)
      {
        SumStep(s, p);
        sum := (sum + Word(src[at + p], src[at + p + 1])) % WRAP;
        size1, p := size1 - 1, p + 2;
      }
      if size2 != 0 {
        SumLast(s, p);
        sum := (sum + src[at + len - 1]) % WRAP;
      }
    }
    SumDone(s);
    r := Finish(sum);
  }

  /** calc_checksum for a buffer at an even address. */
  method CalcChecksum(dat: array<byte>, len: nat) returns (r: nat)
    requires len <= dat.Length
    ensures r == Computed(dat[..len])
  {
    hide WordSum, Sum32, Computed;
    ghost var s := dat[..len];
    var checksum := 0;
    var pstart, pend := 0, len / 2;
    SumNone(s);
    while pstart < pend
      invariant 0 <= pstart <= pend
      invariant checksum == Sum32(s, 2 * pstart)
    {
      SumStep(s, 2 * pstart);
      checksum := (checksum + Word(dat[2 * pstart], dat[2 * pstart + 1])) % WRAP;
      pstart := pstart + 1;
    }
    if len % 2 != 0 {
      SumLast(s, 2 * pstart);
      checksum := (checksum + dat[2 * pstart]) % WRAP;
    }
    SumDone(s);
    r := Finish(checksum);
  }
}
