/** translate_packet and untranslate_packet of common/apps/modem_control/packet.c. */
module ByteStuffing {
  import opened Bytes
  import opened Wrappers

  const FLAG: byte := 0x7E
  const ESCAPE: byte := 0x7D

  // ---- What the sender writes ----

  function StuffByte(b: byte): seq<byte> {
    if b == 0x7E then [0x7D, 0x5E] else if b == 0x7D then [0x7D, 0x5D] else [b]
  }

  function Stuff(p: seq<byte>): seq<byte> {
    if p == [] then [] else StuffByte(p[0]) + Stuff(p[1..])
  }

  function Frame(p: seq<byte>): seq<byte> {
    [FLAG] + Stuff(p) + [FLAG]
  }

  /** How many bytes of `p` are flags or escapes. */
  function Specials(p: seq<byte>): nat {
    if p == [] then 0 else (if p[0] == FLAG || p[0] == ESCAPE then 1 else 0) + Specials(p[1..])
  }

  lemma {:induction false} StuffConcat(p: seq<byte>, q: seq<byte>)
    ensures Stuff(p + q) == Stuff(p) + Stuff(q)
  {
    if p == [] {
      assert p + q == q;
    } else {
      assert (p + q)[1..] == p[1..] + q;
      StuffConcat(p[1..], q);
    }
  }

  lemma StuffNext(p: seq<byte>, i: nat)
    requires i < |p|
    ensures Stuff(p[..i + 1]) == Stuff(p[..i]) + StuffByte(p[i])
    ensures |Stuff(p[..i + 1])| <= |Stuff(p)|
  {
    hide Stuff, StuffByte;
    assert p == p[..i + 1] + p[i + 1..];
    StuffConcat(p[..i + 1], p[i + 1..]);
    assert p[..i + 1] == p[..i] + [p[i]];
    StuffConcat(p[..i], [p[i]]);
    StuffOne(p[i]);
  }

  lemma StuffOne(b: byte)
    ensures Stuff([b]) == StuffByte(b)
  {
    assert [b][1..] == [];
    assert Stuff([b]) == StuffByte(b) + Stuff([]);
  }

  lemma {:induction false} StuffSize(p: seq<byte>)
    ensures |Stuff(p)| == |p| + Specials(p) && Specials(p) <= |p|
  {
    if p != [] {
      StuffSize(p[1..]);
    }
  }

  lemma {:induction false} StuffHasNoFlag(p: seq<byte>)
    ensures FLAG !in Stuff(p)
  {
    if p != [] {
      StuffHasNoFlag(p[1..]);
    }
  }

  /** A frame costs two flags and one byte for each special byte, and a flag ends it nowhere but at its end. */
  lemma FrameShape(p: seq<byte>)
    ensures |Frame(p)| == |p| + 2 + Specials(p)
    ensures forall i :: 0 <= i < |Frame(p)| ==> (Frame(p)[i] == FLAG <==> i == 0 || i == |Frame(p)| - 1)
  {
    StuffSize(p);
    StuffHasNoFlag(p);
    forall i | 0 < i < |Frame(p)| - 1
      ensures Frame(p)[i] != FLAG
    {
      assert Frame(p)[i] == Stuff(p)[i - 1];
    }
  }

  // ---- The receiver of section 4.2 of RFC 1662 ----

  /** Exclusive or with 0x20. */
  function Toggle(b: byte): byte {
    if b / 0x20 % 2 == 1 then b - 0x20 else b + 0x20
  }

  /** Drops each escape and toggles the byte behind it; an escape with nothing behind it aborts. */
  function Unstuff(s: seq<byte>): Option<seq<byte>>
    decreases |s|
  {
    if s == [] then Some([])
    else if s[0] != ESCAPE then
      match Unstuff(s[1..])
      case None => None
      case Some(rest) => Some([s[0]] + rest)
    else if |s| == 1 then None
    else
      match Unstuff(s[2..])
      case None => None
      case Some(rest) => Some([Toggle(s[1])] + rest)
  }

  function Rfc1662Decode(frame: seq<byte>): Option<seq<byte>> {
    if |frame| < 2 || frame[0] != FLAG || frame[|frame| - 1] != FLAG || FLAG in frame[1..|frame| - 1] then None
    else Unstuff(frame[1..|frame| - 1])
  }

  lemma {:induction false} UnstuffStuff(p: seq<byte>)
    ensures Unstuff(Stuff(p)) == Some(p)
  {
    if p != [] {
      var head, tail := StuffByte(p[0]), Stuff(p[1..]);
      UnstuffStuff(p[1..]);
      assert p == [p[0]] + p[1..];
      if |head| == 2 {
        assert Stuff(p)[0] == ESCAPE && Stuff(p)[1] == head[1] && Stuff(p)[2..] == tail;
      } else {
        assert Stuff(p)[0] == p[0] && Stuff(p)[1..] == tail;
      }
    }
  }

  /** The RFC receiver recovers every payload. */
  lemma DecodeFrame(p: seq<byte>)
    ensures Rfc1662Decode(Frame(p)) == Some(p)
  {
    var f := Frame(p);
    assert f[1..|f| - 1] == Stuff(p);
    StuffHasNoFlag(p);
    UnstuffStuff(p);
  }

  lemma FrameInjective(p: seq<byte>, q: seq<byte>)
    requires Frame(p) == Frame(q)
    ensures p == q
  {
    DecodeFrame(p);
    DecodeFrame(q);
  }

  // ---- The receiver the program has ----

  /**
    The state machine of untranslate_packet: 0 looks for a flag, 1 skips flags, 2 collects. In state
    2 the byte collected last decides whether the next one is taken as escaped.
  */
  function Scan(status: int, out: seq<byte>, s: seq<byte>): seq<byte>
    requires status in {0, 1, 2} && (status == 2 ==> out != [])
    decreases |s|
  {
    if s == [] then out
    else if status == 0 then Scan(if s[0] == FLAG then 1 else 0, out, s[1..])
    else if status == 1 then
      if s[0] != FLAG then Scan(2, out + [s[0]], s[1..]) else Scan(1, out, s[1..])
    else if s[0] == FLAG then out
    else if out[|out| - 1] == ESCAPE then
      Scan(2, if s[0] == 0x5E then out[|out| - 1 := 0x7E] else out, s[1..])
    else Scan(2, out + [s[0]], s[1..])
  }

  /** No escape byte except possibly the last byte. */
  predicate EscapeOnlyLast(p: seq<byte>) {
    forall i :: 0 <= i < |p| - 1 ==> p[i] != ESCAPE
  }

  /** One stuffed byte in state 2 is recovered unless the byte collected last is an escape. */
  lemma ScanByte(out: seq<byte>, b: byte, rest: seq<byte>)
    requires out != [] && out[|out| - 1] != ESCAPE
    ensures Scan(2, out, StuffByte(b) + rest) == Scan(2, out + [b], rest)
  {
    var s := StuffByte(b) + rest;
    if |StuffByte(b)| == 2 {
      var mid := out + [ESCAPE];
      assert s[1..] == [s[1]] + rest && s[1..][1..] == rest;
      assert Scan(2, out, s) == Scan(2, mid, s[1..]);
      if b == FLAG {
        assert mid[|mid| - 1 := 0x7E] == out + [b];
      } else {
        assert mid == out + [b];
      }
    } else {
      assert s[1..] == rest;
    }
  }

  /** Behind an escape, one stuffed byte adds nothing: at most it changes the byte collected last. */
  lemma ScanByteEscaped(out: seq<byte>, b: byte, rest: seq<byte>) returns (o: seq<byte>)
    requires out != [] && out[|out| - 1] == ESCAPE
    ensures |o| == |out| && Scan(2, out, StuffByte(b) + rest) == Scan(2, o, rest)
  {
    var s := StuffByte(b) + rest;
    if |StuffByte(b)| == 2 {
      assert s[1..] == [s[1]] + rest && s[1..][1..] == rest;
      assert Scan(2, out, s) == Scan(2, out, s[1..]);
      o := if s[1] == 0x5E then out[|out| - 1 := 0x7E] else out;
    } else {
      assert s[1..] == rest;
      o := if b == 0x5E then out[|out| - 1 := 0x7E] else out;
    }
  }

  /** State 2 never collects more bytes than were stuffed, and fewer if it starts behind an escape. */
  lemma {:induction false} ScanBound(out: seq<byte>, q: seq<byte>)
    requires out != []
    ensures |Scan(2, out, Stuff(q) + [FLAG])| <= |out| + |q|
    ensures q != [] && out[|out| - 1] == ESCAPE ==> |Scan(2, out, Stuff(q) + [FLAG])| < |out| + |q|
    decreases |q|
  {
    if q != [] {
      var rest := Stuff(q[1..]) + [FLAG];
      assert Stuff(q) + [FLAG] == StuffByte(q[0]) + rest;
      if out[|out| - 1] != ESCAPE {
        ScanByte(out, q[0], rest);
        ScanBound(out + [q[0]], q[1..]);
      } else {
        var o := ScanByteEscaped(out, q[0], rest);
        ScanBound(o, q[1..]);
      }
    } else {
      assert Stuff(q) + [FLAG] == [FLAG];
    }
  }

  lemma {:induction false} ScanRecovers(out: seq<byte>, q: seq<byte>)
    requires out != [] && out[|out| - 1] != ESCAPE
    ensures Scan(2, out, Stuff(q) + [FLAG]) == out + q <==> EscapeOnlyLast(q)
    decreases |q|
  {
    if q == [] {
      assert Stuff(q) + [FLAG] == [FLAG];
    } else {
      var rest := Stuff(q[1..]) + [FLAG];
      assert Stuff(q) + [FLAG] == StuffByte(q[0]) + rest;
      ScanByte(out, q[0], rest);
      assert out + q == (out + [q[0]]) + q[1..];
      EscapeTail(q);
      if q[0] != ESCAPE {
        ScanRecovers(out + [q[0]], q[1..]);
      } else if |q| == 1 {
        assert rest == [FLAG];
      } else {
        ScanBound(out + [q[0]], q[1..]);
      }
    }
  }

  lemma EscapeTail(p: seq<byte>)
    requires p != []
    ensures EscapeOnlyLast(p) <==> (|p| == 1 || p[0] != ESCAPE) && EscapeOnlyLast(p[1..])
  {
    if |p| > 1 && p[0] != ESCAPE && EscapeOnlyLast(p[1..]) {
      forall i | 0 <= i < |p| - 1
        ensures p[i] != ESCAPE
      {
        assert i > 0 ==> p[1..][i - 1] == p[i];
      }
    }
  }

  lemma ScanFlag(s: seq<byte>)
    ensures Scan(0, [], [FLAG] + s) == Scan(1, [], s)
  {
    assert ([FLAG] + s)[1..] == s;
  }

  lemma ScanFrame(p: seq<byte>)
    requires p != []
    ensures Scan(0, [], Frame(p)) == Scan(2, [p[0]], Stuff(p[1..]) + [FLAG])
  {
    hide Scan;
    var rest := Stuff(p[1..]) + [FLAG];
    assert Frame(p) == [FLAG] + (StuffByte(p[0]) + rest);
    ScanFlag(StuffByte(p[0]) + rest);
    ScanFirst(p[0], rest);
  }

  /** In front of the first flag everything is skipped. */
  lemma {:induction false} ScanSkips(junk: seq<byte>, s: seq<byte>)
    requires FLAG !in junk
    ensures Scan(0, [], junk + s) == Scan(0, [], s)
    decreases |junk|
  {
    if junk == [] {
      assert junk + s == s;
    } else {
      assert (junk + s)[1..] == junk[1..] + s && (junk + s)[0] == junk[0];
      ScanSkips(junk[1..], s);
    }
  }

  /** Behind the closing flag nothing is looked at. */
  lemma {:induction false} ScanEnds(status: int, out: seq<byte>, s: seq<byte>, tail: seq<byte>)
    requires FLAG !in s && s != [] && (status == 1 || status == 2) && (status == 2 ==> out != [])
    ensures Scan(status, out, s + [FLAG] + tail) == Scan(status, out, s + [FLAG])
    decreases |s|
  {
    var rest := s[1..];
    assert s[0] in s;
    assert (s + [FLAG] + tail)[1..] == rest + [FLAG] + tail && (s + [FLAG])[1..] == rest + [FLAG];
    var out' := if status == 1 then out + [s[0]]
                else if out[|out| - 1] == ESCAPE then (if s[0] == 0x5E then out[|out| - 1 := 0x7E] else out)
                else out + [s[0]];
    assert Scan(status, out, s + [FLAG]) == Scan(2, out', rest + [FLAG]);
    assert Scan(status, out, s + [FLAG] + tail) == Scan(2, out', rest + [FLAG] + tail);
    if rest == [] {
      assert rest + [FLAG] + tail == [FLAG] + tail && rest + [FLAG] == [FLAG];
    } else {
      ScanEnds(2, out', rest, tail);
    }
  }

  /** So the receiver finds a frame in a stream: noise before it and bytes behind it make no difference. */
  lemma ReceiverSynchronises(junk: seq<byte>, p: seq<byte>, tail: seq<byte>)
    requires FLAG !in junk && p != []
    ensures Scan(0, [], junk + Frame(p) + tail) == Scan(0, [], Frame(p))
  {
    hide Scan;
    var body := Stuff(p);
    StuffHasNoFlag(p);
    StuffSize(p);
    assert junk + Frame(p) + tail == junk + ([FLAG] + (body + [FLAG] + tail));
    ScanSkips(junk, [FLAG] + (body + [FLAG] + tail));
    ScanFlag(body + [FLAG] + tail);
    ScanEnds(1, [], body, tail);
    assert Frame(p) == [FLAG] + (body + [FLAG]);
    ScanFlag(body + [FLAG]);
  }

  /** The program's own receiver undoes its sender exactly on payloads with no escape byte before the last. */
  lemma UntranslateTranslateIff(p: seq<byte>)
    ensures Scan(0, [], Frame(p)) == p <==> EscapeOnlyLast(p)
  {
    if p == [] {
      assert Frame(p) == [FLAG, FLAG] && Frame(p)[1..] == [FLAG];
      assert Scan(0, [], Frame(p)) == Scan(1, [], [FLAG]) == Scan(1, [], []);
    } else {
      ScanFrame(p);
      EscapeTail(p);
      assert [p[0]] + p[1..] == p;
      if p[0] != ESCAPE {
        ScanRecovers([p[0]], p[1..]);
      } else if |p| == 1 {
        assert Stuff(p[1..]) + [FLAG] == [FLAG];
      } else {
        ScanBound([p[0]], p[1..]);
      }
    }
  }

  lemma ScanFirst(b: byte, rest: seq<byte>)
    ensures Scan(1, [], StuffByte(b) + rest) == Scan(2, [b], rest)
  {
    var s := StuffByte(b) + rest;
    assert [] + [s[0]] == [s[0]];
    if |StuffByte(b)| == 2 {
      assert s[1..] == [s[1]] + rest && s[1..][1..] == rest;
      assert [ESCAPE][0 := 0x7E] == [FLAG];
    } else {
      assert s[1..] == rest;
    }
  }

  // ---- The two routines ----

  /** translate_packet: `src` is the part of `raw` that starts at `at`. */
  method TranslatePacket(dest: array<byte>, raw: array<byte>, at: nat, size: nat) returns (n: nat)
    requires dest != raw && at + size <= raw.Length && |Frame(raw[at..at + size])| <= dest.Length
    modifies dest
    ensures n <= dest.Length && dest[..n] == Frame(raw[at..at + size])
    ensures forall k :: n <= k < dest.Length ==> dest[k] == old(dest[k])
  {
    hide Stuff, StuffByte;
    ghost var src := raw[at..at + size];
    StuffNone();
    n := Put(dest, 0, 0x7E);
    assert src[..0] == [];
    for i := 0 to size
      invariant 1 <= n < dest.Length
      invariant dest[..n] == [FLAG] + Stuff(src[..i])
      invariant forall k :: n <= k < dest.Length ==> dest[k] == old(dest[k])
    {
      StuffNext(src, i);
      n := PutStuffed(dest, n, raw[at + i]);
    }
    assert src[..size] == src;
    n := Put(dest, n, 0x7E);
  }

  /** `dest[n++] = b`. */
  method Put(dest: array<byte>, n: nat, b: byte) returns (next: nat)
    requires n < dest.Length
    modifies dest
    ensures next == n + 1
    ensures dest[..next] == old(dest[..n]) + [b]
    ensures forall k :: next <= k < dest.Length ==> dest[k] == old(dest[k])
  {
    dest[n] := b;
    next := n + 1;
  }

  /** One byte of the payload, escaped if it has to be. */
  method PutStuffed(dest: array<byte>, n: nat, b: byte) returns (next: nat)
    requires n + |StuffByte(b)| <= dest.Length
    modifies dest
    ensures next == n + |StuffByte(b)|
    ensures dest[..next] == old(dest[..n]) + StuffByte(b)
    ensures forall k :: next <= k < dest.Length ==> dest[k] == old(dest[k])
  {
    ghost var sent := dest[..n];
    if b == 0x7E {
      next := Put(dest, n, 0x7D);
      next := Put(dest, next, 0x5E);
      assert dest[..next] == sent + [0x7D, 0x5E];
    } else if b == 0x7D {
      next := Put(dest, n, 0x7D);
      next := Put(dest, next, 0x5D);
      assert dest[..next] == sent + [0x7D, 0x5D];
    } else {
      next := Put(dest, n, b);
    }
  }

  lemma StuffNone()
    ensures Stuff([]) == []
  {
  }

  /**
    untranslate_packet. `crcSpan` is the length that the routine passes to crc_16_l_calc on the
    closing flag, where an `int` becomes unsigned; the value of that CRC is never used.
  */
  method UntranslatePacket(dest: array<byte>, src: array<byte>, size: nat)
    returns (n: nat, crcSpan: nat)
    requires dest != src && size <= src.Length && size <= dest.Length
    modifies dest
    ensures n <= dest.Length && dest[..n] == Scan(0, [], src[..size])
    ensures crcSpan == 0 || crcSpan == (n - 2) % 0x1_0000_0000
  {
    ghost var s := src[..size];
    n, crcSpan := 0, 0;
    var status := 0;
    for i := 0 to size
      invariant n <= i && status in {0, 1, 2} && (status == 2 ==> n > 0)
      invariant Scan(status, dest[..n], s[i..]) == Scan(0, [], s)
    {
      ghost var out := dest[..n];
      assert s[i..][1..] == s[i + 1..];
      match status {
        case 0 =>
          if src[i] == 0x7E {
            status := 1;
          }
        case 1 =>
          if src[i] != 0x7E {
            status := 2;
            dest[n] := src[i];
            n := n + 1;
            assert dest[..n] == out + [src[i]];
          }
        case _ =>
          if src[i] == 0x7E {
            crcSpan := (n - 2) % 0x1_0000_0000;
            return;
          } else if dest[n - 1] == 0x7D {
            if src[i] == 0x5E {
              dest[n - 1] := 0x7E;
              assert dest[..n] == out[n - 1 := 0x7E];
            } else if src[i] == 0x5D {
              dest[n - 1] := 0x7D;
              assert dest[..n] == out;
            }
          } else {
            dest[n] := src[i];
            n := n + 1;
            assert dest[..n] == out + [src[i]];
          }
      }
    }
    assert s[size..] == [];
  }
}
