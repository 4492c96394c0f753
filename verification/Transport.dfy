/** Sending a packet and picking frames out of a TCP byte stream (bcap_send and bcap_recv). */
module Transport {
  import opened Wire
  import opened Variants
  import opened Encoder
  import opened Decoder
  import opened RoundTrip
  import opened Crc

  const UDP_MAX_PACKET := 503

  function MaxSize(link: Link): nat
  {
    if link == TCP then U32 - 1 else UDP_MAX_PACKET
  }

  function CrcSize(link: Link): nat
  {
    if link == COM then 2 else 0
  }

  /** What stands before the terminator on a serial line: the checksum of all bytes but the first. */
  function Seal(p: Packet, link: Link): (s: seq<byte>)
    requires -0x8000_0000 <= p.id < 0x8000_0000
    ensures |s| == CrcSize(link)
  {
    if link == COM then
      var len := PacketSize(p) + 2;
      LE(Checksum(Body(p, len)[1..]), 2)
    else []
  }

  /** The bytes a successful bcap_send hands to the device. */
  function Sent(p: Packet, link: Link): seq<byte>
    requires -0x8000_0000 <= p.id < 0x8000_0000
  {
    Frame(p, PacketSize(p) + CrcSize(link), Seal(p, link))
  }

  /** The buffer length bcap_send computes: right modulo 2^32. */
  method FrameLength(p: Packet, link: Link) returns (len: nat)
    ensures len == (PacketSize(p) + CrcSize(link)) % U32
  {
    len := CalcSizePacket(p);
    if link == COM {
      Add32Mod(PacketSize(p), 2);
      len := Add32(len, 2);
    }
  }

  /** A buffer that is not the size of the frame is too short for it. */
  lemma WrappedLength(p: Packet, link: Link, len: nat)
    requires len == (PacketSize(p) + CrcSize(link)) % U32
    ensures PacketSize(p) <= len <==> PacketSize(p) + CrcSize(link) < U32
    ensures PacketSize(p) <= len ==> len == PacketSize(p) + CrcSize(link) && !ElementsSpill(p.args, 15, len - 1, true)
  {
    if PacketSize(p) <= len {
      FitElementsNoSpill(p.args, 15, len - 1, true);
    }
  }

  /** bcap_send up to the device call: the outcome is exact for every packet, however large. */
  method Send(p: Packet, link: Link) returns (st: Status, buf: array<byte>)
    requires -0x8000_0000 <= p.id < 0x8000_0000
    ensures st == S_OK <==> AllComplete(p.args) && PacketSize(p) + CrcSize(link) <= MaxSize(link)
    ensures st == S_OK ==> buf[..] == Sent(p, link)
    ensures st in {S_OK, E_INVALIDARG, E_TOO_MUCH_DATA, OVERWRITE}
    ensures var len := (PacketSize(p) + CrcSize(link)) % U32;
            && (st == E_TOO_MUCH_DATA <==> len > if link == TCP then 0xFFFF_FFFF else 503)
            && (st == OVERWRITE <==> PacketSize(p) + CrcSize(link) >= U32 && SIZE_MIN <= len <= MaxSize(link)
                                     && ElementsSpill(p.args, 15, len - 1, true))
  {
    var len := FrameLength(p, link);
    WrappedLength(p, link, len);
    if len > MaxSize(link) {
      buf := new byte[0];
      return E_TOO_MUCH_DATA, buf;
    }
    buf := new byte[len];
    st := WritePacket(p, buf);
    if st == S_OK && link == COM {
      Seals(p, buf);
    }
  }

  /** A top-level argument of fixed-size values takes ten bytes besides them. */
  lemma NumbersEntry(e: nat, xs: seq<nat>)
    ensures |Entry(Vector(e, 0, xs), true)| == 10 + |xs| * ElemWidth(e)
  {
    NumsLength(xs, ElemWidth(e));
    assert Payload(Vector(e, 0, xs)) == Nums(xs, ElemWidth(e));
  }

  lemma TwoEntries(v: Variant, w: Variant)
    ensures |Elements([v, w], true)| == |Entry(v, true)| + |Entry(w, true)|
  {
    assert [v, w][..1] == [v] && [v][..0] == [];
    assert Elements([v], true) == [] + Entry(v, true);
  }

  /** A byte array of 4 GB less one byte and a number behind it: the length wraps to 39, and the array is copied. */
  lemma VastArraySpills(p: Packet, xs: seq<nat>)
    requires |xs| == U32 - 1 && (forall i :: 0 <= i < |xs| ==> xs[i] < 256)
    requires p == Packet(1, 0, 1, [Vector(VT_UI1, 0, xs), Scalar(VT_I4, 7)])
    ensures TypedPacket(p) && AllComplete(p.args) && PacketSize(p) % U32 == 39
    ensures ElementsSpill(p.args, 15, 38, true)
  {
    var v, w := p.args[0], p.args[1];
    NumbersEntry(VT_UI1, xs);
    TwoEntries(v, w);
    assert |Entry(w, true)| == 14;
    assert Spills(v, 25, 38);
    assert EntrySpills(v, 15, 38, true);
  }

  /**
   * Two arrays of eight-byte integers whose length wraps to 2^32 - 4: the integer that begins 7 bytes before
   * 2^32 slips, since its end wraps to 1.
   */
  lemma VastNumbersSpill(p: Packet, xs: seq<nat>, ys: seq<nat>)
    requires |xs| == 0x1FFF_FFFF && |ys| == 0x1FFF_FFFC
    requires p == Packet(1, 0, 1, [Vector(VT_I8, 0, xs), Vector(VT_I8, 0, ys)])
    ensures AllComplete(p.args) && PacketSize(p) % U32 == U32 - 4
    ensures ElementsSpill(p.args, 15, U32 - 5, true)
  {
    var v, w := p.args[0], p.args[1];
    NumbersEntry(VT_I8, xs);
    NumbersEntry(VT_I8, ys);
    TwoEntries(v, w);
    FieldSlipsAt(|xs|, 8, 25, U32 - 5, 0x1FFF_FFFC, 8 * 0x1FFF_FFFC);
    assert Spills(v, 25, U32 - 5);
    assert EntrySpills(v, 15, U32 - 5, true);
  }

  /** Body, padding and terminator of a frame. */
  lemma FrameParts(f: seq<byte>, body: seq<byte>, pad: seq<byte>)
    requires f == body + pad + [TERMINATOR] && |body| >= 1
    ensures f[1..|f| - 1 - |pad|] == body[1..] && At(f, |f| - 1 - |pad|, pad)
    ensures forall q: seq<byte> :: |q| == |pad| ==> Splice(f, |f| - 1 - |pad|, q) == body + q + [TERMINATOR]
  {
  }

  /** The checksum step of bcap_send. */
  method Seals(p: Packet, buf: array<byte>)
    requires -0x8000_0000 <= p.id < 0x8000_0000
    requires buf[..] == Frame(p, PacketSize(p) + 2, Zeros(2))
    modifies buf
    ensures buf[..] == Sent(p, COM)
  {
    var len := buf.Length;
    ghost var body := Body(p, len);
    FrameParts(buf[..], body, Zeros(2));
    var crc := CalcCrc(buf[..][1..len - 3]);
    PutLE(buf, len - 3, FromBits(crc), 2);
  }

  /** The comparison bcap_recv makes on a serial line. */
  predicate CrcMatches(f: seq<byte>)
    requires |f| >= SIZE_MIN + 2
  {
    Checksum(f[1..|f| - 3]) == Load(f, |f| - 3, 2)
  }

  /** A frame sent on any link gives the packet back. */
  lemma SentIsAccepted(p: Packet, link: Link, f: seq<byte>, room: nat, own: bool)
    requires TypedPacket(p) && AllComplete(p.args) && Accepts(room, own, |p.args|)
    requires PacketSize(p) + CrcSize(link) <= MaxSize(link) && f == Sent(p, link)
    ensures DecPacket(f, room, own) == Ok(p.(args := RebasedAll(p.args)), PacketSize(p) - 1)
  {
    var len, pad := PacketSize(p) + CrcSize(link), Seal(p, link);
    assert f == Frame(p, len, pad) && len - 1 - |pad| == PacketSize(p) - 1;
    FrameDecodes(p, len, pad, room, own);
  }

  /** On a serial line its checksum is the one the receiver computes. */
  lemma SentMatches(p: Packet)
    requires -0x8000_0000 <= p.id < 0x8000_0000
    ensures CrcMatches(Sent(p, COM))
  {
    var f, seal := Sent(p, COM), Seal(p, COM);
    var body := Body(p, |f|);
    FrameParts(f, body, seal);
    ChecksumFits(body[1..]);
    LoadAt(f, |f| - 3, Checksum(body[1..]), 2);
  }

  lemma ChecksumFits(s: seq<byte>)
    ensures Checksum(s) < Pow256(2)
  {
    BackBits(CrcFrom(INITIAL, s));
    TwoOf8();
    PowValues();
  }

  /** Damage to the checksum field alone is noticed; damage elsewhere is the subject of module Damage. */
  lemma DamagedField(f: seq<byte>, g: seq<byte>)
    requires |f| == |g| >= SIZE_MIN + 2 && CrcMatches(f)
    requires f[1..|f| - 3] == g[1..|g| - 3] && f[|f| - 3..|f| - 1] != g[|g| - 3..|g| - 1]
    ensures !CrcMatches(g)
  {
    LoadedApart(f[|f| - 3..|f| - 1], g[|g| - 3..|g| - 1]);
  }

  lemma LoadedApart(a: seq<byte>, b: seq<byte>)
    requires |a| == |b| && a != b
    ensures UnLE(a) != UnLE(b)
  {
    StoreLoaded(a);
    StoreLoaded(b);
  }

  // ----- the receiving side of a TCP connection -----

  /**
   * A connection that will deliver stream. Each entry of chunks is how many bytes one receive call
   * finds available; nothing available, or no entry left, is an error of the call.
   */
  class Socket {
    const stream: seq<byte>
    var pos: nat
    var chunks: seq<nat>

    constructor (stream: seq<byte>, chunks: seq<nat>)
      ensures this.stream == stream && this.chunks == chunks && pos == 0
    {
      this.stream, this.chunks, this.pos := stream, chunks, 0;
    }

    /** dn_recv with MSG_PEEK */
    method Peek(max: nat) returns (ok: bool, data: seq<byte>)
      requires pos <= |stream|
      modifies this`chunks
      ensures chunks == if old(chunks) == [] then [] else old(chunks)[1..]
      ensures ok ==> old(chunks) != [] && 0 < |data| <= max
      ensures old(chunks) != [] ==> |data| == Least(max, Least(old(chunks)[0], |stream| - pos)) && (ok <==> |data| > 0)
      ensures pos + |data| <= |stream| && data == stream[pos..pos + |data|]
    {
      if chunks == [] {
        return false, [];
      }
      var n := Least(max, Least(chunks[0], |stream| - pos));
      chunks := chunks[1..];
      ok, data := n > 0, stream[pos..pos + n];
    }

    /** dn_recv of n bytes of which known were peeked before: at least those arrive */
    method Read(n: nat, known: nat) returns (ok: bool, data: seq<byte>)
      requires known <= n && pos + known <= |stream|
      modifies this
      ensures chunks == if old(chunks) == [] then [] else old(chunks)[1..]
      ensures known <= |data| <= n && (ok <==> |data| > 0)
      ensures |data| > known ==> old(chunks) != []
      ensures old(chunks) != [] ==> |data| >= Least(n, Least(old(chunks)[0], |stream| - old(pos)))
      ensures old(pos) + |data| == pos <= |stream| && data == stream[old(pos)..pos]
    {
      var k := if chunks == [] then 0 else Least(n, Least(chunks[0], |stream| - pos));
      k := if k < known then known else k;
      chunks := if chunks == [] then [] else chunks[1..];
      data := stream[pos..pos + k];
      pos := pos + k;
      ok := k > 0;
    }

    /** dn_recv of exactly n bytes that were peeked before */
    method Drop(n: nat)
      requires pos + n <= |stream|
      modifies this`pos
      ensures pos == old(pos) + n
    {
      pos := pos + n;
    }
  }

  function Least(a: nat, b: nat): nat
  {
    if a < b then a else b
  }

  /** A frame header stands at i: the header byte and a length that a frame can have. */
  predicate HeaderAt(t: seq<byte>, i: nat)
  {
    i + 5 <= |t| && t[i] == HEADER && Load(t, i + 1, 4) >= SIZE_MIN
  }

  /** The scan bcap_recv refines: the first header at or after a position. */
  ghost predicate FirstHeader(t: seq<byte>, from: nat, i: nat)
  {
    from <= i && HeaderAt(t, i) && NoHeader(t, from, i)
  }

  ghost predicate NoHeader(t: seq<byte>, lo: nat, hi: nat)
  {
    forall j :: lo <= j < hi ==> !HeaderAt(t, j)
  }

  /** Receive calls that find at least the start of a frame, a header byte and a length, while that much is left. */
  predicate Steady(chunks: seq<nat>)
  {
    forall i :: 0 <= i < |chunks| ==> chunks[i] >= 5
  }

  /** Enough of them to take in everything from a position on. */
  predicate Plenty(chunks: seq<nat>, left: nat)
  {
    Steady(chunks) && |chunks| >= left + 2
  }

  datatype Outcome =
    | Received(at: nat, parsed: Parsed<Packet>)  // the frame at this position was taken whole
    | Lost(at: nat)                              // the connection failed inside the frame at this position
    | Waiting                                    // it failed before a header was found

  /** memchr: the first header byte of buf, or |buf| */
  method FindHeader(buf: seq<byte>) returns (i: nat)
    ensures i <= |buf| && (i < |buf| ==> buf[i] == HEADER)
    ensures forall j :: 0 <= j < i ==> buf[j] != HEADER
  {
    i := 0;
    while i < |buf| && buf[i] != HEADER
      invariant i <= |buf| && forall j :: 0 <= j < i ==> buf[j] != HEADER
    {
      i := i + 1;
    }
  }

  /** The inner loop: peek until a header byte with a length field behind it is at the front. */
  method Synchronise(s: Socket) returns (ok: bool, buf: seq<byte>)
    requires s.pos <= |s.stream|
    modifies s
    ensures old(s.pos) <= s.pos && s.pos + |buf| <= |s.stream| && buf == s.stream[s.pos..s.pos + |buf|]
    ensures NoHeader(s.stream, old(s.pos), s.pos)
    ensures ok ==> |buf| >= 5 && buf[0] == HEADER && |s.chunks| < |old(s.chunks)|
    ensures |s.chunks| <= |old(s.chunks)| && (Steady(old(s.chunks)) ==> Steady(s.chunks))
    ensures Steady(old(s.chunks)) ==> |old(s.chunks)| - |s.chunks| <= s.pos - old(s.pos) + 1 || |s.stream| - s.pos < 5
    ensures Steady(old(s.chunks)) && !ok ==> |old(s.chunks)| <= s.pos - old(s.pos) || |s.stream| - s.pos < 5
  {
    buf := [];
    while true
      invariant |s.chunks| <= |old(s.chunks)| && (Steady(old(s.chunks)) ==> Steady(s.chunks))
      invariant Steady(old(s.chunks)) ==>
        |old(s.chunks)| - |s.chunks| <= s.pos - old(s.pos) + (if buf == [] then 0 else 1) || |s.stream| - s.pos < 5
      invariant Steady(old(s.chunks)) && buf != [] ==> |buf| >= 5 || |s.stream| - s.pos < 5
      invariant old(s.pos) <= s.pos && s.pos + |buf| <= |s.stream| && buf == s.stream[s.pos..s.pos + |buf|]
      invariant NoHeader(s.stream, old(s.pos), s.pos)
      invariant |s.chunks| <= |old(s.chunks)| && (buf != [] ==> |s.chunks| < |old(s.chunks)|)
      decreases |s.chunks|
    {
      var i := FindHeader(buf);
      assert forall j :: s.pos <= j < s.pos + i ==> s.stream[j] == buf[j - s.pos];
      s.Drop(i);
      buf := buf[i..];
      if |buf| >= 5 {
        return true, buf;
      }
      var got, data := s.Peek(UDP_MAX_PACKET);
      if !got {
        return false, [];
      }
      buf := data;
    }
  }

  /** The header byte and the length at the front of what was peeked are those in the stream. */
  lemma PeekedLength(t: seq<byte>, pos: nat, buf: seq<byte>)
    requires 5 <= |buf| && pos + |buf| <= |t| && buf == t[pos..pos + |buf|] && buf[0] == HEADER
    ensures UnLE(buf[1..5]) == Load(t, pos + 1, 4)
    ensures UnLE(buf[1..5]) >= SIZE_MIN <==> HeaderAt(t, pos)
  {
    SliceOfSlice(t, pos, pos + |buf|, 1, 5);
  }

  /** bcap_recv on a TCP connection */
  method Receive(s: Socket, room: nat, own: bool) returns (r: Outcome)
    requires s.pos <= |s.stream|
    modifies s
    ensures old(s.pos) <= s.pos <= |s.stream|
    ensures r.Received? ==>
              && FirstHeader(s.stream, old(s.pos), r.at)
              && s.pos == r.at + Load(s.stream, r.at + 1, 4)
              && r.parsed == DecPacket(s.stream[r.at..s.pos], room, own)
    ensures r.Lost? ==>
              FirstHeader(s.stream, old(s.pos), r.at) && r.at < s.pos < r.at + Load(s.stream, r.at + 1, 4)
    ensures r.Waiting? ==> NoHeader(s.stream, old(s.pos), s.pos)
    ensures Plenty(old(s.chunks), |s.stream| - old(s.pos)) ==>
      (r.Waiting? ==> NoHeader(s.stream, old(s.pos), |s.stream|)) && (r.Lost? ==> s.pos == |s.stream|)
  {
    while true
      invariant old(s.pos) <= s.pos <= |s.stream|
      invariant NoHeader(s.stream, old(s.pos), s.pos)
      invariant |s.chunks| <= |old(s.chunks)| && (Steady(old(s.chunks)) ==> Steady(s.chunks))
      invariant Steady(old(s.chunks)) ==>
        |old(s.chunks)| - |s.chunks| <= s.pos - old(s.pos) || |s.stream| - s.pos < 5
      decreases |s.chunks|
    {
      var ok, buf := Synchronise(s);
      if !ok {
        return Waiting;
      }
      var len := UnLE(buf[1..5]);
      PeekedLength(s.stream, s.pos, buf);
      if len < SIZE_MIN {
        s.Drop(1);
      } else {
        assert FirstHeader(s.stream, old(s.pos), s.pos);
        r := TakeFrame(s, len, |buf|, room, own);
        return;
      }
    }
  }

  /** Read until the frame whose first bytes were peeked is whole. */
  method ReadWhole(s: Socket, len: nat, peeked: nat) returns (ok: bool, frame: seq<byte>)
    requires len >= SIZE_MIN && 5 <= peeked && s.pos + peeked <= |s.stream|
    modifies s
    ensures old(s.pos) < s.pos <= |s.stream| && frame == s.stream[old(s.pos)..s.pos]
    ensures if ok then |frame| == len else |frame| < len
    ensures !ok && Steady(old(s.chunks)) ==> s.pos == |s.stream| || |old(s.chunks)| <= s.pos - old(s.pos)
  {
    ok, frame := s.Read(len, Least(len, peeked));
    while |frame| < len
      invariant 0 < |frame| <= len && s.pos == old(s.pos) + |frame| <= |s.stream|
      invariant ok && frame == s.stream[old(s.pos)..s.pos]
      invariant |s.chunks| <= |old(s.chunks)| && (Steady(old(s.chunks)) ==> Steady(s.chunks))
      invariant Steady(old(s.chunks)) ==> |old(s.chunks)| - |s.chunks| <= |frame|
    {
      var more;
      ok, more := s.Read(len - |frame|, 0);
      if !ok {
        return;
      }
      frame := frame + more;
    }
  }

  /** The rest of the loop body: read the whole frame, then parse it. */
  method TakeFrame(s: Socket, len: nat, peeked: nat, room: nat, own: bool) returns (r: Outcome)
    requires len >= SIZE_MIN && 5 <= peeked && s.pos + peeked <= |s.stream|
    modifies s
    ensures old(s.pos) < s.pos <= |s.stream| && !r.Waiting? && r.at == old(s.pos)
    ensures r.Received? ==>
              s.pos == old(s.pos) + len
              && r.parsed == DecPacket(s.stream[old(s.pos)..old(s.pos) + len], room, own)
    ensures r.Lost? ==> s.pos < old(s.pos) + len
    ensures r.Lost? && Steady(old(s.chunks)) ==> s.pos == |s.stream| || |old(s.chunks)| <= s.pos - old(s.pos)
  {
    var at := s.pos;
    var ok, frame := ReadWhole(s, len, peeked);
    if !ok {
      return Lost(at);
    }
    var buf := new byte[len](i requires 0 <= i < len => frame[i]);
    assert buf[..] == frame;
    var parsed := ReadPacket(buf, room, own);
    r := Received(at, parsed);
  }

  lemma SentHeader(t: seq<byte>, p: Packet, at: nat)
    requires TypedPacket(p) && AllComplete(p.args) && PacketSize(p) < U32 && At(t, at, Sent(p, TCP))
    ensures HeaderAt(t, at) && Load(t, at + 1, 4) == PacketSize(p) == |Sent(p, TCP)|
  {
    var f := Sent(p, TCP);
    assert At(f, 0, Head(p, |f|));
    HeadDecodes(f, p, |f|);
    SliceOfSlice(t, at, at + |f|, 1, 5);
  }

  /**
   * Bytes without a header, then a sent frame: the scan stops at the frame, and the frame taken there
   * is the packet that was sent.
   */
  lemma NextFrame(t: seq<byte>, from: nat, p: Packet, at: nat, room: nat, own: bool, i: nat)
    requires TypedPacket(p) && AllComplete(p.args) && Accepts(room, own, |p.args|) && PacketSize(p) < U32
    requires from <= at && At(t, at, Sent(p, TCP)) && NoHeader(t, from, at)
    requires FirstHeader(t, from, i)
    ensures i == at && Load(t, i + 1, 4) == PacketSize(p)
    ensures DecPacket(t[i..i + PacketSize(p)], room, own)
         == Ok(p.(args := RebasedAll(p.args)), PacketSize(p) - 1)
  {
    SentHeader(t, p, at);
    SentIsAccepted(p, TCP, Sent(p, TCP), room, own);
  }
}
