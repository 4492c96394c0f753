/** Frames byte by byte: what the writers put on the wire and what the reader refuses, in plain numbers. */
module Samples {
  import opened Wire
  import opened Variants
  import opened Encoder
  import opened Decoder
  import opened Crc
  import opened Transport

  /** Little-endian: the low byte first. */
  lemma LowFirst(n: nat)
    ensures LE(n, 2) == [n % 256, n / 256 % 256]
    ensures LE(n, 4) == [n % 256, n / 256 % 256, n / 256 / 256 % 256, n / 256 / 256 / 256 % 256]
  {
    assert Shifted(n, 1) == n / 256;
    assert Shifted(n, 2) == n / 256 / 256;
    assert Shifted(n, 3) == n / 256 / 256 / 256;
  }

  /** So a length field reads as this sum. */
  lemma FourBytes(s: seq<byte>)
    requires |s| == 4
    ensures UnLE(s) == s[0] as int + 0x100 * s[1] as int + 0x1_0000 * s[2] as int + 0x100_0000 * s[3] as int
  {
    assert s[1..][1..] == s[2..] && s[2..][1..] == s[3..] && s[3..][1..] == [];
    assert UnLE(s[3..]) == s[3] as int;
    assert UnLE(s[2..]) == s[2] as int + 256 * s[3] as int;
    assert UnLE(s[1..]) == s[1] as int + 256 * UnLE(s[2..]);
  }

  /** The fixed part of every frame. */
  lemma HeadBytes(p: Packet, len: nat, pad: seq<byte>)
    requires -0x8000_0000 <= p.id < 0x8000_0000
    ensures var f := Frame(p, len, pad);
            && |f| == 16 + |Elements(p.args, true)| + |pad| && f[0] == 1 && f[|f| - 1] == 4
            && f[1..5] == LE(len, 4) && f[5..7] == LE(p.serial, 2) && f[7..9] == LE(p.reserv, 2)
            && f[9..13] == LE(if p.id < 0 then p.id + 0x1_0000_0000 else p.id, 4) && f[13..15] == LE(|p.args|, 2)
  {
  }

  /** Every element: its type by number, its count and what follows. */
  lemma ElementBytes(v: Variant)
    ensures Element(v) == LE(match v case Scalar(vt, _) => vt case Missing(vt) => vt case Str(_) => 8
                                     case Vector(e, _, _) => 0x2000 + e case Strings(_, _) => 0x2008
                                     case Nested(_, _) => 0x200C, 2)
                        + LE(match v case Vector(_, _, xs) => |xs| case Strings(_, ss) => |ss|
                                     case Nested(_, vs) => |vs| case Missing(_) => 0 case _ => 1, 4) + Payload(v)
  {
  }

  lemma TwoElements(v: Variant, w: Variant, top: bool)
    ensures Elements([v, w], top) == Entry(v, top) + Entry(w, top)
  {
    assert [v, w][..1] == [v] && [v][..0] == [];
    assert Elements([v], top) == [] + Entry(v, top) == Entry(v, top);
  }

  /** A 32-bit integer. */
  lemma IntegerElement(v: Variant)
    requires v == Scalar(3, 0x11223344)
    ensures Element(v) == [3, 0, 1, 0, 0, 0, 0x44, 0x33, 0x22, 0x11]
  {
    LowFirst(3);
    LowFirst(1);
    LowFirst(0x11223344);
  }

  /** A string of the units 0x41 and 0x20AC: its length in bytes, then two bytes a unit. */
  lemma StringElement(v: Variant)
    requires v == Str([0x41, 0x20AC])
    ensures Element(v) == [8, 0, 1, 0, 0, 0, 4, 0, 0, 0, 0x41, 0, 0xAC, 0x20]
  {
    LowFirst(8);
    LowFirst(1);
    LowFirst(4);
    LowFirst(0x41);
    LowFirst(0x20AC);
    PairBytes(0x41, 0x20AC);
  }

  lemma PairBytes(x: nat, y: nat)
    ensures Nums([x, y], 2) == LE(x, 2) + LE(y, 2)
  {
    assert [x, y][..1] == [x] && [x][..0] == [];
    assert Nums([x], 2) == [] + LE(x, 2) == LE(x, 2);
  }

  /** On a network nothing stands between the arguments and the terminator. */
  lemma SentParts(p: Packet, head: seq<byte>, args: seq<byte>)
    requires -0x8000_0000 <= p.id < 0x8000_0000
    requires Elements(p.args, true) == args && Head(p, 16 + |args|) == head
    ensures Sent(p, TCP) == head + args + [4]
  {
    assert head + args + [] == head + args;
  }

  /** Serial number, reserved field, a negative id and both arguments, each behind its length. */
  lemma RequestFrame(p: Packet)
    requires p == Packet(0x0102, 0x0304, -2147024809, [Scalar(3, 0x11223344), Str([0x41, 0x20AC])])
    ensures Sent(p, TCP) ==
      [1, 48, 0, 0, 0, 2, 1, 4, 3, 0x57, 0, 7, 0x80, 2, 0]
      + ([10, 0, 0, 0] + [3, 0, 1, 0, 0, 0, 0x44, 0x33, 0x22, 0x11]
         + ([14, 0, 0, 0] + [8, 0, 1, 0, 0, 0, 4, 0, 0, 0, 0x41, 0, 0xAC, 0x20]))
      + [4]
  {
    TwoArguments(p.args);
    RequestHead(p);
    SentParts(p, Head(p, 48), Elements(p.args, true));
  }

  lemma TwoArguments(vs: seq<Variant>)
    requires vs == [Scalar(3, 0x11223344), Str([0x41, 0x20AC])]
    ensures Elements(vs, true) == [10, 0, 0, 0] + [3, 0, 1, 0, 0, 0, 0x44, 0x33, 0x22, 0x11]
      + ([14, 0, 0, 0] + [8, 0, 1, 0, 0, 0, 4, 0, 0, 0, 0x41, 0, 0xAC, 0x20])
  {
    IntegerElement(vs[0]);
    StringElement(vs[1]);
    TwoElements(vs[0], vs[1], true);
    LowFirst(10);
    LowFirst(14);
  }

  lemma RequestHead(p: Packet)
    requires p.serial == 0x0102 && p.reserv == 0x0304 && p.id == -2147024809 && |p.args| == 2
    ensures Head(p, 48) == [1, 48, 0, 0, 0, 2, 1, 4, 3, 0x57, 0, 7, 0x80, 2, 0]
  {
    LowFirst(48);
    LowFirst(0x0102);
    LowFirst(0x0304);
    LowFirst(0x80070057);
    LowFirst(2);
  }

  lemma UnsignedArray(v: Variant)
    requires v.Vector? && v.elemVt == 18 && v.elems == [0x0102, 0x0304]
    ensures Element(v) == [0x12, 0x20] + [2, 0, 0, 0] + ([2, 1] + [4, 3])
  {
    LowFirst(0x2012);
    LowFirst(2);
    LowFirst(0x0102);
    LowFirst(0x0304);
    PairBytes(0x0102, 0x0304);
  }

  lemma StringArray(v: Variant)
    requires v.Strings? && v.strs == [[0x61]]
    ensures Element(v) == [8, 0x20] + [1, 0, 0, 0] + ([2, 0, 0, 0] + [0x61, 0])
  {
    LowFirst(0x2008);
    LowFirst(1);
    LowFirst(2);
    LowFirst(0x61);
    OneString([0x61]);
    OneUnit(0x61);
  }

  lemma OneUnit(x: nat)
    ensures Nums([x], 2) == LE(x, 2)
  {
    assert [x][..0] == [];
    assert [] + LE(x, 2) == LE(x, 2);
  }

  /** A nested array: its elements are written like arguments, but without a length in front. */
  lemma NestedElement(v: Variant)
    requires v.Nested? && |v.items| == 2 && v.items == [v.items[0], v.items[1]]
    requires v.items[0].Vector? && v.items[0].elemVt == 18 && v.items[0].elems == [0x0102, 0x0304]
    requires v.items[1].Strings? && v.items[1].strs == [[0x61]]
    ensures Element(v) == [0x0C, 0x20] + [2, 0, 0, 0]
      + ([0x12, 0x20] + [2, 0, 0, 0] + ([2, 1] + [4, 3]) + ([8, 0x20] + [1, 0, 0, 0] + ([2, 0, 0, 0] + [0x61, 0])))
  {
    LowFirst(0x200C);
    LowFirst(2);
    UnsignedArray(v.items[0]);
    StringArray(v.items[1]);
    TwoElements(v.items[0], v.items[1], false);
  }

  lemma OneString(u: seq<nat>)
    ensures BStrs([u]) == LE(2 * |u|, 4) + Nums(u, 2)
  {
    assert [u][..0] == [];
  }

  // ----- a frame on a serial line -----

  lemma EmptyRequestSteps()
    ensures StepByte(Word(XF, XF, XF, XF), 18) == Word(XD, X3, X8, X3)
    ensures StepByte(Word(XD, X3, X8, X3), 0) == Word(X7, X8, X1, XE)
    ensures StepByte(Word(X7, X8, X1, XE), 0) == Word(XE, X1, X9, XF)
    ensures StepByte(Word(XE, X1, X9, XF), 0) == Word(X7, X2, X0, XF)
    ensures StepByte(Word(X7, X2, X0, XF), 1) == Word(X4, X1, XF, X4)
    ensures StepByte(Word(X4, X1, XF, X4), 0) == Word(XA, XC, XE, X5)
    ensures StepByte(Word(XA, XC, XE, X5), 0) == Word(X9, X1, X6, X6)
    ensures StepByte(Word(X9, X1, X6, X6), 0) == Word(XF, X5, X9, X8)
    ensures StepByte(Word(XF, X5, X9, X8), 1) == Word(X3, X7, X9, XB)
    ensures StepByte(Word(X3, X7, X9, XB), 0) == Word(XD, XD, XB, X4)
    ensures StepByte(Word(XD, XD, XB, X4), 0) == Word(XA, XE, XD, X0)
    ensures StepByte(Word(XA, XE, XD, X0), 0) == Word(X8, X4, X2, X4)
    ensures StepByte(Word(X8, X4, X2, X4), 0) == Word(XF, X5, X0, XC)
    ensures StepByte(Word(XF, X5, X0, XC), 0) == Word(XB, X3, XB, XA)
  {
  }

  lemma {:induction false} StepsAppend(w: Word, s: seq<byte>, t: seq<byte>)
    ensures StepBytes(w, s + t) == StepBytes(StepBytes(w, s), t)
    decreases |s|
  {
    if s == [] {
      assert s + t == t;
    } else {
      assert (s + t)[1..] == s[1..] + t;
      StepsAppend(StepByte(w, s[0]), s[1..], t);
    }
  }

  lemma TwoSteps(w: Word, b: byte, c: byte)
    ensures StepBytes(w, [b, c]) == StepByte(StepByte(w, b), c)
  {
    assert [b, c][1..] == [c] && [c][1..] == [];
    assert StepBytes(StepByte(w, b), [c]) == StepByte(StepByte(w, b), c);
  }

  lemma FourSteps(w: Word, b: byte, v1: Word, v2: Word, v3: Word, v4: Word)
    requires StepByte(w, b) == v1 && StepByte(v1, 0) == v2 && StepByte(v2, 0) == v3 && StepByte(v3, 0) == v4
    ensures StepBytes(w, [b, 0] + [0, 0]) == v4
  {
    var zero: byte := 0;
    TwoSteps(w, b, zero);
    TwoSteps(v2, zero, zero);
    StepsAppend(w, [b, zero], [zero, zero]);
  }

  /** The checksum of an empty request's bytes behind the first. */
  lemma EmptyRequestChecksum(s: seq<byte>)
    requires s == [0x12, 0] + [0, 0] + ([1, 0] + [0, 0] + ([1, 0] + [0, 0] + [0, 0]))
    ensures Checksum(s) == 0xB3BA
  {
    var a: seq<byte>, b: seq<byte>, c: seq<byte> := [0x12, 0] + [0, 0], [1, 0] + [0, 0], [0, 0];
    var w := Word(XF, XF, XF, XF);
    EmptyRequestSteps();
    FourSteps(Word(XF, XF, XF, XF), 18, Word(XD, X3, X8, X3),
              Word(X7, X8, X1, XE), Word(XE, X1, X9, XF), Word(X7, X2, X0, XF));
    FourSteps(Word(X7, X2, X0, XF), 1, Word(X4, X1, XF, X4),
              Word(XA, XC, XE, X5), Word(X9, X1, X6, X6), Word(XF, X5, X9, X8));
    FourSteps(Word(XF, X5, X9, X8), 1, Word(X3, X7, X9, XB),
              Word(XD, XD, XB, X4), Word(XA, XE, XD, X0), Word(X8, X4, X2, X4));
    TwoSteps(Word(X8, X4, X2, X4), 0, 0);
    StepsAppend(w, a, b + (b + c));
    StepsAppend(Word(X7, X2, X0, XF), b, b + c);
    StepsAppend(Word(XF, X5, X9, X8), b, c);
    StepsAreCrc(w, s);
    assert Register(w) == INITIAL;
    WordValue(Word(XB, X3, XB, XA));
  }

  lemma EmptyHead(p: Packet, s: seq<byte>)
    requires p == Packet(1, 0, 1, [])
    requires s == [0x12, 0] + [0, 0] + ([1, 0] + [0, 0] + ([1, 0] + [0, 0] + [0, 0]))
    ensures Head(p, 18) == [1] + s
  {
    LowFirst(18);
    LowFirst(1);
    LowFirst(0);
  }

  lemma SealedParts(p: Packet, s: seq<byte>, crc: nat)
    requires -0x8000_0000 <= p.id < 0x8000_0000 && p.args == [] && Head(p, 18) == [1] + s && Checksum(s) == crc
    ensures Sent(p, COM) == [1] + s + LE(crc, 2) + [4]
  {
    assert Head(p, 18) + [] == Head(p, 18);
    assert ([1] + s)[1..] == s;
  }

  lemma SealLow()
    ensures LE(0xB3BA, 2) == [0xBA, 0xB3]
  {
    LowFirst(0xB3BA);
  }

  /** An empty request with function id 1: the checksum stands behind the head, the low byte first. */
  lemma EmptyRequestFrame(p: Packet, s: seq<byte>)
    requires p == Packet(1, 0, 1, [])
    requires s == [0x12, 0] + [0, 0] + ([1, 0] + [0, 0] + ([1, 0] + [0, 0] + [0, 0]))
    ensures Sent(p, COM) == [1] + s + [0xBA, 0xB3] + [4]
  {
    EmptyHead(p, s);
    EmptyRequestChecksum(s);
    SealedParts(p, s, 0xB3BA);
    SealLow();
  }

  // ----- what the reader refuses -----

  /** The tests on the head, in the order they are made. */
  lemma HeadTests(src: seq<byte>, room: nat, own: bool)
    ensures |src| >= 16 ==>
      UnLE(src[1..5])
      == src[1] as int + 0x100 * src[2] as int + 0x1_0000 * src[3] as int + 0x100_0000 * src[4] as int
    ensures |src| < 16 || src[0] != 1 || src[|src| - 1] != 4 || UnLE(src[1..5]) != |src|
            ==> DecPacket(src, room, own) == Fail(E_INVALIDPACKET)
    ensures |src| >= 16 && src[0] == 1 && src[|src| - 1] == 4 && UnLE(src[1..5]) == |src| ==>
            var argc := UnLE(src[13..15]);
            && ((room == 65535 && own) || (room != 65535 && room > 0 && !own)
                ==> DecPacket(src, room, own) == Fail(E_INVALIDARG))
            && (room == 65535 && !own && DecPacket(src, room, own).Ok?
                ==> |DecPacket(src, room, own).value.args| == argc)
            && (room != 65535 && (own || room == 0) && argc > room
                ==> DecPacket(src, room, own) == Fail(E_INVALIDPACKET))
  {
    if |src| >= 16 {
      FourBytes(src[1..5]);
    }
  }

  /** Arrays are read with lower bound 1. */
  lemma LowerBoundOne(src: seq<byte>, vt: nat, n: nat, off: nat)
    requires off <= |src| && DecVariant(src, vt, n, off).Ok?
    ensures var v := DecVariant(src, vt, n, off).value;
            && (v.Vector? ==> v.lbound == 1) && (v.Strings? ==> v.lbound == 1) && (v.Nested? ==> v.lbound == 1)
  {
  }
}
