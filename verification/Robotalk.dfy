/** ROBOTalk frames: building, checksum, sending and receiving through any chunking (dn_robotalk.c). */
module Robotalk {
  import opened Wire

  const ENQ: byte := 5
  const SIZE_HEADER := 6
  const SIZE_CRC := 2
  const SIZE_PACKET := 256
  const MAX_DATA := 248
  const UDP_MAX_PACKET := 503

  datatype Packet = Packet(command: nat, from: byte, to: byte, data: seq<byte>)

  predicate Valid(p: Packet)
  {
    p.command < U16 && |p.data| <= MAX_DATA
  }

  /** Two bytes, most significant first: memcpy_be */
  function BigEndian(n: nat): seq<byte>
    requires n < U16
  {
    [n / 256, n % 256]
  }

  function Header(p: Packet): (h: seq<byte>)
    requires Valid(p)
    ensures |h| == SIZE_HEADER
  {
    [ENQ, |p.data| as byte] + BigEndian(p.command) + [p.from, p.to]
  }

  function Sum(s: seq<byte>): (n: nat)
    ensures n <= 255 * |s|
  {
    if s == [] then 0 else Sum(s[..|s| - 1]) + s[|s| - 1]
  }

  /** The bytes rtk_send puts on the line. */
  function Frame(p: Packet): (f: seq<byte>)
    requires Valid(p)
    ensures |f| == SIZE_HEADER + |p.data| + SIZE_CRC
  {
    var body := Header(p) + p.data;
    body + BigEndian(Sum(body))
  }

  function DataLength(buf: seq<byte>): (n: nat)
    requires |buf| > 1
    ensures n <= MAX_DATA
  {
    if buf[1] > MAX_DATA then MAX_DATA else buf[1]
  }

  /** The 16-bit sum does not wrap, and neither does the 8-bit index, over a header and its data. */
  method CalcCrc(buf: seq<byte>) returns (crc: nat)
    requires |buf| >= SIZE_HEADER && |buf| >= SIZE_HEADER + DataLength(buf)
    ensures crc == Sum(buf[..SIZE_HEADER + DataLength(buf)])
  {
    var len := DataLength(buf);
    var pos: nat := 0;
    crc := 0;
    while pos < SIZE_HEADER + len
      invariant pos <= SIZE_HEADER + len && crc == Sum(buf[..pos])
      decreases SIZE_HEADER + len - pos
    {
      assert buf[..pos + 1][..pos] == buf[..pos];
      crc := (crc + buf[pos]) % U16;
      pos := (pos + 1) % 256;
    }
  }

  /** rtk_param2packet and rtk_send; nothing when the data are too long. */
  method Send(command: nat, data: seq<byte>, from: byte, to: byte) returns (line: seq<byte>)
    requires command < U16
    ensures line == if |data| <= MAX_DATA then Frame(Packet(command, from, to, data)) else []
  {
    if |data| > MAX_DATA { return []; }
    var body := [ENQ, |data| as byte] + BigEndian(command) + [from, to] + data;
    assert body[..SIZE_HEADER + |data|] == body;
    var crc := CalcCrc(body);
    line := body + BigEndian(crc);
  }

  // ----- receiving -----

  /** What follows the first ENQ, and the ENQ. */
  function FromEnq(s: seq<byte>): (r: seq<byte>)
    ensures |r| <= |s| && (r != [] ==> r[0] == ENQ)
  {
    if s == [] || s[0] == ENQ then s else FromEnq(s[1..])
  }

  lemma {:induction false} FromEnqAppend(x: seq<byte>, y: seq<byte>)
    ensures FromEnq(x + y) == if FromEnq(x) == [] then FromEnq(y) else FromEnq(x) + y
  {
    if x == [] {
      assert x + y == y;
    } else if x[0] != ENQ {
      FromEnqAppend(x[1..], y);
      assert (x + y)[1..] == x[1..] + y;
    }
  }

  /** A receive that ended: no more bytes, a length byte above the packet size, a wrong sum, or a packet. */
  datatype Received = Timeout | Oversized | WrongSum(buf: seq<byte>) | Good(packet: Packet)

  predicate Whole(buf: seq<byte>)
  {
    |buf| > 1 && buf[1] <= MAX_DATA && |buf| == SIZE_HEADER + buf[1] as int + SIZE_CRC
  }

  function Unpacked(buf: seq<byte>): Packet
    requires Whole(buf)
  {
    Packet(buf[2] as int * 256 + buf[3] as int, buf[4], buf[5], buf[6..6 + buf[1] as int])
  }

  predicate SumAgrees(buf: seq<byte>)
    requires Whole(buf)
  {
    var n := SIZE_HEADER + buf[1] as int;
    Sum(buf[..n]) == buf[n] as int * 256 + buf[n + 1] as int
  }

  function Checked(buf: seq<byte>): Received
    requires Whole(buf)
  {
    if SumAgrees(buf) then Good(Unpacked(buf)) else WrongSum(buf)
  }

  /** What bytes that start with ENQ, or none, are received as. */
  function Judged(f: seq<byte>): Received
  {
    if |f| < SIZE_HEADER + SIZE_CRC then Timeout
    else
      var n := SIZE_HEADER + f[1] as int + SIZE_CRC;
      if n > SIZE_PACKET then Oversized
      else if |f| < n then Timeout
      else Checked(f[..n])
  }

  /** A serial line: the bytes still to come and how many each receive finds ready. */
  class Line {
    var rest: seq<byte>
    var chunks: seq<nat>

    constructor (stream: seq<byte>, schedule: seq<nat>)
      ensures rest == stream && chunks == schedule
    {
      rest, chunks := stream, schedule;
    }

    /** dn_recv: at least one and at most max bytes, or a timeout. */
    method DnRecv(max: nat) returns (got: seq<byte>)
      requires max > 0
      modifies this
      ensures old(rest) == got + rest && |got| <= max && |chunks| <= |old(chunks)|
      ensures got == [] <==> old(rest) == [] || old(chunks) == []
      ensures if got == [] then rest == old(rest) && chunks == old(chunks) else |chunks| + 1 == |old(chunks)|
    {
      got := [];
      if rest == [] || chunks == [] { return; }
      var n := if chunks[0] == 0 then 1 else chunks[0];
      n := if n > max then max else n;
      n := if n > |rest| then |rest| else n;
      got, rest, chunks := rest[..n], rest[n..], chunks[1..];
    }

    /** Junk is dropped until a header and a checksum's worth of bytes from an ENQ on are there. */
    method Gather() returns (ok: bool, buf: seq<byte>)
      modifies this
      ensures FromEnq(old(rest)) == if buf == [] then FromEnq(rest) else buf + rest
      ensures ok ==> |buf| >= SIZE_HEADER + SIZE_CRC
      ensures !ok ==> |buf| < SIZE_HEADER + SIZE_CRC && (rest == [] || chunks == [])
      ensures |old(chunks)| - |chunks| <= |old(rest)| - |rest|
    {
      buf := [];
      while true
        invariant |buf| < SIZE_HEADER + SIZE_CRC && FromEnq(buf) == buf
        invariant FromEnq(old(rest)) == Amount(buf, rest)
        invariant |old(chunks)| - |chunks| <= |old(rest)| - |rest|
        decreases |chunks|
      {
        ghost var before, was := rest, buf;
        var got := DnRecv(UDP_MAX_PACKET - |buf|);
        if got == [] { return false, buf; }
        buf := FromEnq(buf + got);
        Gathered(was, got, rest);
        if |buf| >= SIZE_HEADER + SIZE_CRC { return true, buf; }
      }
    }

    /** Once the header is there, the rest of the frame is waited for. */
    method Complete(start: seq<byte>, n: nat) returns (ok: bool, buf: seq<byte>)
      requires n > 0
      modifies this
      ensures ok ==> |buf| == n && n <= |start + old(rest)| && buf == (start + old(rest))[..n]
      ensures !ok ==> rest == [] || chunks == []
      ensures !ok && rest == [] ==> |start + old(rest)| < n
      ensures |old(chunks)| - |chunks| <= |old(rest)| - |rest|
    {
      buf := if n < |start| then start[..n] else start;
      ghost var extra := if n < |start| then start[n..] else [];
      while |buf| < n
        invariant |buf| <= n && buf + extra + rest == start + old(rest)
        invariant |buf| < n ==> extra == []
        invariant |old(chunks)| - |chunks| <= |old(rest)| - |rest|
        decreases |chunks|
      {
        var got := DnRecv(n - |buf|);
        if got == [] { return false, buf; }
        buf := buf + got;
      }
      ok := true;
    }

    /** One round of rtk_recv: whatever the chunks, the outcome is that of the bytes from the first ENQ on. */
    method Attempt() returns (r: Received)
      modifies this
      ensures r == Timeout || r == Judged(FromEnq(old(rest)))
      ensures |old(rest)| <= |old(chunks)| ==> r == Judged(FromEnq(old(rest)))
    {
      var ok, start := Gather();
      if !ok { return Timeout; }
      var n := SIZE_HEADER + start[1] as int + SIZE_CRC;
      if n > SIZE_PACKET { return Oversized; }
      ghost var all := start + rest;
      var done, buf := Complete(start, n);
      if !done { return Timeout; }
      assert all[1] == start[1] && buf == all[..n];
      var crc := CalcCrc(buf);
      r := if crc == buf[n - 2] as int * 256 + buf[n - 1] as int then Good(Unpacked(buf)) else WrongSum(buf);
    }
  }

  /** What the bytes gathered so far and those to come amount to. */
  function Amount(buf: seq<byte>, rest: seq<byte>): seq<byte>
  {
    if buf == [] then FromEnq(rest) else buf + rest
  }

  lemma FromEnqTwice(s: seq<byte>)
    ensures FromEnq(FromEnq(s)) == FromEnq(s)
  {
  }

  lemma Associate(a: seq<byte>, b: seq<byte>, c: seq<byte>)
    ensures a + (b + c) == a + b + c
  {
  }

  lemma StillFromEnq(buf: seq<byte>, got: seq<byte>)
    requires FromEnq(buf) == buf != []
    ensures FromEnq(buf + got) == buf + got
  {
    FromEnqAppend(buf, got);
  }

  lemma AmountOf(buf: seq<byte>, rest: seq<byte>, all: seq<byte>)
    requires buf != [] && all == buf + rest
    ensures Amount(buf, rest) == all
  {
  }

  lemma GatheredMore(buf: seq<byte>, got: seq<byte>, rest: seq<byte>)
    requires buf != []
    ensures Amount(buf, got + rest) == Amount(buf + got, rest)
  {
    Associate(buf, got, rest);
    AmountOf(buf, got + rest, buf + (got + rest));
    AmountOf(buf + got, rest, buf + (got + rest));
  }

  lemma GatheredFirst(got: seq<byte>, rest: seq<byte>)
    ensures Amount([], got + rest) == Amount(FromEnq(got), rest)
  {
    FromEnqAppend(got, rest);
  }

  lemma Gathered(buf: seq<byte>, got: seq<byte>, rest: seq<byte>)
    requires FromEnq(buf) == buf
    ensures var next := FromEnq(buf + got); FromEnq(next) == next && Amount(buf, got + rest) == Amount(next, rest)
  {
    FromEnqTwice(buf + got);
    if buf == [] {
      assert [] + got == got;
      GatheredFirst(got, rest);
    } else {
      StillFromEnq(buf, got);
      GatheredMore(buf, got, rest);
    }
  }

  // ----- a frame on a clean line -----

  lemma {:induction false} NoiseDropped(noise: seq<byte>, f: seq<byte>)
    requires ENQ !in noise && f != [] && f[0] == ENQ
    ensures FromEnq(noise + f) == f
  {
    if noise == [] {
      assert noise + f == f;
    } else {
      NoiseDropped(noise[1..], f);
      assert (noise + f)[1..] == noise[1..] + f;
    }
  }

  lemma FrameParts(p: Packet)
    requires Valid(p)
    ensures var f := Frame(p); Whole(f) && Checked(f) == Good(p) && f[0] == ENQ
  {
    var f, n := Frame(p), SIZE_HEADER + |p.data|;
    var body := Header(p) + p.data;
    assert f[..n] == body;
    assert f[6..n] == p.data;
  }

  /** A frame after noise without an ENQ, whatever follows it, is received as the packet that was sent. */
  lemma FrameReceived(p: Packet, noise: seq<byte>, tail: seq<byte>)
    requires Valid(p) && ENQ !in noise
    ensures Judged(FromEnq(noise + (Frame(p) + tail))) == Good(p)
  {
    FrameParts(p);
    NoiseDropped(noise, Frame(p) + tail);
    assert (Frame(p) + tail)[..|Frame(p)|] == Frame(p);
  }

  /** The frame byte by byte. */
  lemma FrameBytes(p: Packet)
    requires Valid(p)
    ensures var f, n := Frame(p), |p.data|;
            && n <= 248 && |f| == 8 + n && f[0] == 5 && f[1] as int == n
            && f[2] as int * 256 + f[3] as int == p.command && f[4] == p.from && f[5] == p.to && f[6..6 + n] == p.data
            && f[6 + n] as int * 256 + f[7 + n] as int == Sum(f[..6 + n])
  {
    FrameParts(p);
    var body := Header(p) + p.data;
    assert Frame(p)[..6 + |p.data|] == body;
  }

  /** Any bytes from an ENQ on, by their length byte. */
  lemma JudgedByLength(f: seq<byte>)
    ensures |f| < 8 ==> Judged(f) == Timeout
    ensures |f| >= 8 && f[1] > 248 ==> Judged(f) == Oversized
    ensures |f| >= 8 && f[1] <= 248 && |f| < 8 + f[1] as int ==> Judged(f) == Timeout
    ensures |f| >= 8 && f[1] <= 248 && |f| >= 8 + f[1] as int ==>
              var n := 6 + f[1] as int;
              Judged(f) == if Sum(f[..n]) == f[n] as int * 256 + f[n + 1] as int
                           then Good(Packet(f[2] as int * 256 + f[3] as int, f[4], f[5], f[6..n]))
                           else WrongSum(f[..n + 2])
  {
    if |f| >= 8 && f[1] <= 248 && |f| >= 8 + f[1] as int {
      var n := 6 + f[1] as int;
      assert f[..n + 2][..n] == f[..n] && f[..n + 2][6..n] == f[6..n];
    }
  }

  /** A frame: the byte sum 0xDF stands at the end, its high byte first. */
  lemma FrameSample(p: Packet)
    requires p == Packet(0x0C20, 1, 2, [0xAA])
    ensures Frame(p) == [5, 1, 0x0C, 0x20, 1, 2, 0xAA, 0, 0xDF]
  {
    var s: seq<byte> := [5, 1, 0x0C, 0x20, 1, 2, 0xAA];
    assert Header(p) + p.data == s;
    assert s[..6][..5] == s[..5] && s[..5][..4] == s[..4] && s[..4][..3] == s[..3] && s[..3][..2] == s[..2];
    assert Sum(s[..2]) == 6;
    assert Sum(s[..4]) == 50;
    assert Sum(s[..6]) == 53;
    assert Sum(s) == 223;
  }

  // ----- damaged frames -----

  lemma {:induction false} SumAt(s: seq<byte>, i: nat, b: byte)
    requires i < |s|
    ensures Sum(s[i := b]) == Sum(s) - s[i] as int + b as int
  {
    var t, n := s[i := b], |s| - 1;
    if i < n {
      SumAt(s[..n], i, b);
      assert t[..n] == s[..n][i := b];
    } else {
      assert t[..n] == s[..n];
    }
  }

  /** One damaged byte anywhere but in the ENQ and the length is always noticed. */
  lemma DamageNoticed(f: seq<byte>, i: nat, b: byte)
    requires Whole(f) && SumAgrees(f) && 1 < i < |f| && b != f[i]
    ensures var g := f[i := b]; Whole(g) && !SumAgrees(g)
  {
    var n, g := SIZE_HEADER + f[1] as int, f[i := b];
    if i < n {
      SumAt(f[..n], i, b);
      assert g[..n] == f[..n][i := b];
    } else {
      assert g[..n] == f[..n];
    }
  }
}
