/** What the b-CAP writers and readers promise together. */
module RoundTrip {
  import opened Wire
  import opened Variants
  import opened Encoder
  import opened Decoder

  lemma LoadAt(src: seq<byte>, off: nat, n: nat, size: nat)
    requires At(src, off, LE(n, size)) && n < Pow256(size)
    ensures Load(src, off, size) == n
  {
    assert src[off..off + size] == LE(n, size);
    LoadStored(n, size);
  }

  lemma {:induction false} NumsDecode(src: seq<byte>, xs: seq<nat>, size: nat, off: nat, slots: nat)
    requires At(src, off, Nums(xs, size)) && |xs| <= slots
    requires forall i :: 0 <= i < |xs| ==> xs[i] < Pow256(size)
    ensures DecNums(src, |xs|, size, off, slots) == Ok(xs, off + |Nums(xs, size)|)
  {
    if xs != [] {
      var front, x := xs[..|xs| - 1], xs[|xs| - 1];
      AtSplit(src, off, Nums(front, size), LE(x, size));
      NumsDecode(src, front, size, off, slots);
      LoadAt(src, off + |Nums(front, size)|, x, size);
      assert xs == front + [x];
    }
  }

  lemma {:induction false} TerminatedUnits(u: seq<nat>)
    requires Units(u)
    ensures Terminated(u) == u
  {
    if u != [] {
      TerminatedUnits(u[1..]);
    }
  }

  lemma BStrDecodes(src: seq<byte>, u: seq<nat>, off: nat)
    requires At(src, off, BStr(u)) && Units(u) && |u| <= MAX_BSTR
    ensures DecBStr(src, off) == Ok(u, off + |BStr(u)|)
  {
    PowValues();
    AtSplit(src, off, LE(2 * |u|, 4), Nums(u, 2));
    LoadAt(src, off, 2 * |u|, 4);
    NumsDecode(src, u, 2, off + 4, UnitSlots(|u|));
    TerminatedUnits(u);
  }

  /** One more round of the reader's loop. */
  lemma BStrsRound(src: seq<byte>, ss: seq<seq<nat>>, off: nat, mid: nat, next: nat, slots: nat)
    requires ss != [] && |ss| <= slots && DecBStrs(src, |ss| - 1, off, slots) == Ok(ss[..|ss| - 1], mid)
    requires DecBStr(src, mid) == Ok(ss[|ss| - 1], next)
    ensures DecBStrs(src, |ss|, off, slots) == Ok(ss, next)
  {
    assert ss == ss[..|ss| - 1] + [ss[|ss| - 1]];
  }

  lemma BStrsAt(src: seq<byte>, ss: seq<seq<nat>>, off: nat) returns (mid: nat)
    requires ss != [] && At(src, off, BStrs(ss))
    ensures At(src, off, BStrs(ss[..|ss| - 1])) && mid == off + |BStrs(ss[..|ss| - 1])|
    ensures At(src, mid, BStr(ss[|ss| - 1])) && mid + |BStr(ss[|ss| - 1])| == off + |BStrs(ss)|
  {
    var a, b := BStrs(ss[..|ss| - 1]), BStr(ss[|ss| - 1]);
    AtSplit(src, off, a, b);
    mid := off + |a|;
  }

  predicate ShortUnits(ss: seq<seq<nat>>)
  {
    forall i :: 0 <= i < |ss| ==> Units(ss[i]) && |ss[i]| <= MAX_BSTR
  }

  lemma {:induction false} BStrsDecode(src: seq<byte>, ss: seq<seq<nat>>, off: nat, next: nat, slots: nat)
    requires At(src, off, BStrs(ss)) && ShortUnits(ss) && |ss| <= slots
    requires next == off + |BStrs(ss)|
    ensures DecBStrs(src, |ss|, off, slots) == Ok(ss, next)
  {
    if ss != [] {
      var mid := BStrsAt(src, ss, off);
      assert ShortUnits(ss[..|ss| - 1]) && Units(ss[|ss| - 1]);
      BStrsDecode(src, ss[..|ss| - 1], off, mid, slots);
      BStrDecodes(src, ss[|ss| - 1], mid);
      BStrsRound(src, ss, off, mid, next, slots);
    }
  }

  ghost predicate Writable(v: Variant)
  {
    Typed(v) && ShortStrings(v) && Complete(v)
  }

  ghost predicate AllWritable(vs: seq<Variant>)
  {
    forall i :: 0 <= i < |vs| ==> Writable(vs[i])
  }

  lemma {:induction false} PayloadDecodes(src: seq<byte>, v: Variant, off: nat)
    requires At(src, off, Payload(v)) && Writable(v)
    ensures DecVariant(src, TypeOf(v), Count(v), off) == Ok(Rebased(v), off + |Payload(v)|)
    decreases v, 0
  {
    if v.Nested? {
      ElementsDecode(src, v.items, off, false, off + |Payload(v)|, |v.items|);
      assert ElemType(TypeOf(v)) == VT_VARIANT;
    } else {
      FlatDecodes(src, v, off);
    }
  }

  lemma FlatDecodes(src: seq<byte>, v: Variant, off: nat)
    requires !v.Nested? && At(src, off, Payload(v)) && Writable(v)
    ensures DecVariant(src, TypeOf(v), Count(v), off) == Ok(Rebased(v), off + |Payload(v)|)
  {
    match v {
      case Scalar(vt, bits) => LoadAt(src, off, bits, Width(vt));
      case Str(u) => BStrDecodes(src, u, off);
      case Vector(_, _, _) => VectorDecodes(src, v, off);
      case Strings(_, _) => StringsDecode(src, v, off);
    }
  }

  lemma StringsDecode(src: seq<byte>, v: Variant, off: nat)
    requires v.Strings? && At(src, off, Payload(v)) && Writable(v)
    ensures DecVariant(src, TypeOf(v), Count(v), off) == Ok(Rebased(v), off + |Payload(v)|)
  {
    var next := off + |BStrs(v.strs)|;
    BStrsDecode(src, v.strs, off, next, |v.strs|);
    assert ElemType(TypeOf(v)) == VT_BSTR;
  }

  lemma VectorRead(src: seq<byte>, e: nat, xs: seq<nat>, off: nat, next: nat)
    requires off <= |src| && !IsArray(e) && e != VT_BSTR && e != VT_VARIANT
    requires ElemWidth(e) == 0 ==> xs == []
    requires DecNums(src, |xs|, ElemWidth(e), off, Slots(|xs|, ElemWidth(e))) == Ok(xs, next)
    requires e == VT_UI1 ==> off + |xs| <= |src|
    ensures DecVariant(src, e + VT_ARRAY, |xs|, off) == Ok(Vector(e, 1, xs), next)
  {
    assert IsArray(e + VT_ARRAY) && ElemType(e + VT_ARRAY) == e;
  }

  lemma VectorDecodes(src: seq<byte>, v: Variant, off: nat)
    requires v.Vector? && At(src, off, Payload(v)) && Writable(v)
    ensures DecVariant(src, TypeOf(v), Count(v), off) == Ok(Rebased(v), off + |Payload(v)|)
  {
    var e, xs, next := v.elemVt, v.elems, off + |Payload(v)|;
    assert DecNums(src, |xs|, ElemWidth(e), off, |xs|) == Ok(xs, next) by {
      NumsDecode(src, xs, ElemWidth(e), off, |xs|);
    }
    if e == VT_UI1 {
      NumsLength(xs, 1);
    }
    VectorRead(src, e, xs, off, next);
  }

  lemma TypeFits(v: Variant)
    requires Typed(v)
    ensures TypeOf(v) < U16 && Count(v) < U32
  {
  }

  /** The type and count fields of an element are read back, and the payload follows them. */
  lemma ElementFields(src: seq<byte>, v: Variant, start: nat)
    requires At(src, start, Element(v)) && Typed(v)
    ensures At(src, start + 6, Payload(v))
    ensures Load(src, start, 2) == TypeOf(v) && Load(src, start + 2, 4) == Count(v)
  {
    var t, c := LE(TypeOf(v), 2), LE(Count(v), 4);
    AtSplit(src, start, t + c, Payload(v));
    AtSplit(src, start, t, c);
    PowValues();
    TypeFits(v);
    LoadAt(src, start, TypeOf(v), 2);
    LoadAt(src, start + 2, Count(v), 4);
  }

  lemma {:induction false} ElementDecodes(src: seq<byte>, v: Variant, start: nat)
    requires At(src, start, Element(v)) && Writable(v)
    ensures DecElement(src, start) == Ok(Rebased(v), start + |Element(v)|)
    decreases v, 1
  {
    ElementFields(src, v, start);
    PayloadDecodes(src, v, start + 6);
  }

  lemma ArgumentDecodes(src: seq<byte>, v: Variant, off: nat)
    requires At(src, off, Entry(v, true)) && Writable(v) && |src| < U32
    ensures DecEntry(src, off, true) == Ok(Rebased(v), off + |Entry(v, true)|)
    decreases v, 2
  {
    var size := LE(|Element(v)|, 4);
    AtSplit(src, off, size, Element(v));
    ElementDecodes(src, v, off + 4);
    assert Add32(off, 4) == off + 4 && |Entry(v, true)| == 4 + |Element(v)|;
  }

  lemma {:induction false} EntryDecodes(src: seq<byte>, v: Variant, off: nat, top: bool)
    requires At(src, off, Entry(v, top)) && Writable(v) && (top ==> |src| < U32)
    ensures DecEntry(src, off, top) == Ok(Rebased(v), off + |Entry(v, top)|)
    decreases v, 3
  {
    if top {
      ArgumentDecodes(src, v, off);
    } else {
      ElementDecodes(src, v, off);
    }
  }

  lemma ElementsRound(src: seq<byte>, n: nat, off: nat, top: bool,
                      front: seq<Variant>, mid: nat, v: Variant, next: nat, slots: nat)
    requires off <= |src| && mid <= |src|
    requires DecElements(src, n, off, top, slots) == Ok(front, mid) && DecEntry(src, mid, top) == Ok(v, next)
    requires n < slots
    ensures DecElements(src, n + 1, off, top, slots) == Ok(front + [v], next)
  {
  }

  lemma ElementsAt(src: seq<byte>, vs: seq<Variant>, off: nat, top: bool) returns (mid: nat)
    requires vs != [] && At(src, off, Elements(vs, top))
    ensures At(src, off, Elements(vs[..|vs| - 1], top)) && mid == off + |Elements(vs[..|vs| - 1], top)|
    ensures At(src, mid, Entry(vs[|vs| - 1], top))
    ensures mid + |Entry(vs[|vs| - 1], top)| == off + |Elements(vs, top)|
  {
    var a, b := Elements(vs[..|vs| - 1], top), Entry(vs[|vs| - 1], top);
    AtSplit(src, off, a, b);
    mid := off + |a|;
  }

  lemma {:induction false} ElementsDecode(src: seq<byte>, vs: seq<Variant>, off: nat, top: bool, next: nat, slots: nat)
    requires At(src, off, Elements(vs, top)) && AllWritable(vs) && |vs| <= slots && (top ==> |src| < U32)
    requires next == off + |Elements(vs, top)|
    ensures DecElements(src, |vs|, off, top, slots) == Ok(RebasedAll(vs), next)
    decreases vs, 0
  {
    if vs != [] {
      var mid := ElementsAt(src, vs, off, top);
      ElementsDecode(src, vs[..|vs| - 1], off, top, mid, slots);
      EntryDecodes(src, vs[|vs| - 1], mid, top);
      ElementsRound(src, |vs| - 1, off, top, RebasedAll(vs[..|vs| - 1]), mid, Rebased(vs[|vs| - 1]), next, slots);
    }
  }

  /** The caller's argument array takes the packet. */
  predicate Accepts(room: nat, own: bool, argc: nat)
  {
    if room == AUTO then !own else (room > 0 ==> own) && argc <= room
  }

  /** The head fields of a frame are read back. */
  lemma HeadDecodes(src: seq<byte>, p: Packet, len: nat)
    requires TypedPacket(p) && len < U32 && At(src, 0, Head(p, len))
    ensures src[0] == HEADER && Load(src, 1, 4) == len && Load(src, 5, 2) == p.serial
    ensures Load(src, 7, 2) == p.reserv && Load(src, 9, 4) == ToU32(p.id) && Load(src, 13, 2) == |p.args|
  {
    PowValues();
    var a, b, c := [HEADER] + LE(len, 4), LE(p.serial, 2), LE(p.reserv, 2);
    var d, e := LE(ToU32(p.id), 4), LE(|p.args|, 2);
    AtSplit(src, 0, a + b + c + d, e);
    AtSplit(src, 0, a + b + c, d);
    AtSplit(src, 0, a + b, c);
    AtSplit(src, 0, a, b);
    AtSplit(src, 0, [HEADER], LE(len, 4));
    LoadAt(src, 1, len, 4);
    LoadAt(src, 5, p.serial, 2);
    LoadAt(src, 7, p.reserv, 2);
    LoadAt(src, 9, ToU32(p.id), 4);
    LoadAt(src, 13, |p.args|, 2);
  }

  /**
   * Round trip: whatever stands between the arguments and the terminator (nothing on TCP and UDP,
   * the CRC on COM), a frame is read back as the packet it was made from.
   */
  lemma FrameDecodes(p: Packet, len: nat, pad: seq<byte>, room: nat, own: bool)
    requires TypedPacket(p) && AllComplete(p.args)
    requires len == PacketSize(p) + |pad| < U32
    requires Accepts(room, own, |p.args|)
    ensures DecPacket(Frame(p, len, pad), room, own)
         == Ok(p.(args := RebasedAll(p.args)), len - 1 - |pad|)
  {
    var src := Frame(p, len, pad);
    assert |src| == len && src[len - 1] == TERMINATOR;
    assert At(src, 0, Head(p, len));
    HeadDecodes(src, p, len);
    var body := src[..len - 1];
    assert At(body, 15, Elements(p.args, true));
    ElementsDecode(body, p.args, 15, true, PacketSize(p) - 1, |p.args|);
    FromToU32(p.id);
  }

  /** Where argument i of a packet begins in its frame. */
  function ArgumentAt(p: Packet, i: nat): nat
    requires i <= |p.args|
  {
    15 + |Elements(p.args[..i], true)|
  }

  lemma {:induction false} ElementsFrom(src: seq<byte>, vs: seq<Variant>, off: nat, i: nat)
    requires At(src, off, Elements(vs, true)) && i < |vs|
    ensures At(src, off + |Elements(vs[..i], true)|, Entry(vs[i], true))
    decreases |vs|
  {
    var mid := ElementsAt(src, vs, off, true);
    if i < |vs| - 1 {
      var front := vs[..|vs| - 1];
      ElementsFrom(src, front, off, i);
      assert front[..i] == vs[..i];
    }
  }

  /** In a frame each argument begins with the distance from behind that field to the next argument, or to the end. */
  lemma LengthFields(p: Packet, len: nat, pad: seq<byte>, i: nat)
    requires -0x8000_0000 <= p.id < 0x8000_0000 && len == PacketSize(p) + |pad| < U32 && i < |p.args|
    ensures var f, a := Frame(p, len, pad), ArgumentAt(p, i);
            a + 4 <= |f| && Load(f, a, 4) == ArgumentAt(p, i + 1) - (a + 4)
    ensures ArgumentAt(p, |p.args|) == len - 1 - |pad|
  {
    var f, a, e := Frame(p, len, pad), ArgumentAt(p, i), Element(p.args[i]);
    assert p.args[..|p.args|] == p.args;
    assert At(f, 15, Elements(p.args, true));
    ElementsFrom(f, p.args, 15, i);
    AtSplit(f, a, LE(|e|, 4), e);
    ElementsSplit(p.args, i, true);
    ElementsPrefix(p.args, i + 1, true);
    PowValues();
    LoadAt(f, a, |e|, 4);
  }

  lemma FromToU32(x: int)
    requires -0x8000_0000 <= x < 0x8000_0000
    ensures FromU32(ToU32(x)) == x
  {
  }

  // ----- the reader on arbitrary bytes -----

  lemma {:induction false} NumsLoaded(src: seq<byte>, n: nat, size: nat, off: nat, slots: nat)
    requires DecNums(src, n, size, off, slots).Ok?
    ensures forall i :: 0 <= i < n ==> DecNums(src, n, size, off, slots).value[i] < Pow256(size)
  {
    if n > 0 {
      NumsLoaded(src, n - 1, size, off, slots);
      var at := DecNums(src, n - 1, size, off, slots).next;
      LoadBound(src[at..at + size]);
    }
  }

  lemma BStrLoaded(src: seq<byte>, off: nat)
    requires DecBStr(src, off).Ok?
    ensures Units(DecBStr(src, off).value)
  {
    PowValues();
    var n := Load(src, off, 4) / 2;
    NumsLoaded(src, n, 2, off + 4, UnitSlots(n));
  }

  lemma {:induction false} BStrsLoaded(src: seq<byte>, n: nat, off: nat, slots: nat)
    requires DecBStrs(src, n, off, slots).Ok?
    ensures ShortUnits(DecBStrs(src, n, off, slots).value)
  {
    if n > 0 {
      BStrsLoaded(src, n - 1, off, slots);
      BStrLoaded(src, DecBStrs(src, n - 1, off, slots).next);
    }
  }

  lemma VectorLoaded(src: seq<byte>, e: nat, n: nat, off: nat)
    requires off <= |src| && !IsArray(e) && e + VT_ARRAY < U16 && e != VT_BSTR && e != VT_VARIANT
    requires DecVariant(src, e + VT_ARRAY, n, off).Ok?
    ensures var v := DecVariant(src, e + VT_ARRAY, n, off).value; Writable(v) && Rebased(v) == v
  {
    assert IsArray(e + VT_ARRAY) && ElemType(e + VT_ARRAY) == e;
    NumsLoaded(src, n, ElemWidth(e), off, Slots(n, ElemWidth(e)));
  }

  lemma StringsLoaded(src: seq<byte>, n: nat, off: nat)
    requires off <= |src| && DecVariant(src, VT_BSTR + VT_ARRAY, n, off).Ok?
    ensures var v := DecVariant(src, VT_BSTR + VT_ARRAY, n, off).value; Writable(v) && Rebased(v) == v
  {
    BStrsLoaded(src, n, off, Slots(n, BSTR_SIZE));
  }

  lemma ScalarLoaded(src: seq<byte>, vt: nat, n: nat, off: nat)
    requires off <= |src| && vt < U16 && !IsArray(vt) && DecVariant(src, vt, n, off).Ok?
    ensures var v := DecVariant(src, vt, n, off).value; Writable(v) && Rebased(v) == v
  {
    if vt == VT_BSTR {
      BStrLoaded(src, off);
    } else {
      LoadBound(src[off..off + Width(vt)]);
    }
  }

  lemma ArrayTypes(vt: nat)
    requires IsArray(vt) && vt < U16
    ensures vt == ElemType(vt) + VT_ARRAY && !IsArray(ElemType(vt))
  {
  }

  /** Everything the reader accepts is a complete value of the C types with short strings, based at 1. */
  lemma {:induction false} VariantLoaded(src: seq<byte>, vt: nat, n: nat, off: nat)
    requires off <= |src| && vt < U16
    requires DecVariant(src, vt, n, off).Ok?
    ensures var v := DecVariant(src, vt, n, off).value; Writable(v) && Rebased(v) == v
    decreases 0, |src| - off, 3, 0
  {
    if !IsArray(vt) {
      ScalarLoaded(src, vt, n, off);
    } else {
      ArrayTypes(vt);
      if ElemType(vt) == VT_BSTR {
        StringsLoaded(src, n, off);
      } else if ElemType(vt) == VT_VARIANT {
        ElementsLoaded(src, n, off, false, Slots(n, VARIANT_SIZE));
      } else {
        VectorLoaded(src, ElemType(vt), n, off);
      }
    }
  }

  lemma {:induction false} ElementLoaded(src: seq<byte>, start: nat)
    requires DecElement(src, start).Ok?
    ensures var v := DecElement(src, start).value; Writable(v) && Rebased(v) == v
    decreases 0, if start <= |src| then |src| - start else 0, 0, 0
  {
    PowValues();
    LoadBound(src[start..start + 2]);
    VariantLoaded(src, Load(src, start, 2), Load(src, start + 2, 4), start + 6);
  }

  lemma {:induction false} EntryLoaded(src: seq<byte>, off: nat, top: bool)
    requires off <= |src| && DecEntry(src, off, top).Ok?
    ensures var v := DecEntry(src, off, top).value; Writable(v) && Rebased(v) == v
    decreases if top then 1 else 0, if top then 0 else |src| - off, 1, 0
  {
    ElementLoaded(src, if top then Add32(off, 4) else off);
  }

  lemma {:induction false} ElementsLoaded(src: seq<byte>, n: nat, off: nat, top: bool, slots: nat)
    requires off <= |src|
    requires DecElements(src, n, off, top, slots).Ok?
    ensures var vs := DecElements(src, n, off, top, slots).value; AllWritable(vs) && RebasedAll(vs) == vs
    decreases if top then 1 else 0, if top then n else |src| - off, 2, n
  {
    if n > 0 {
      ElementsLoaded(src, n - 1, off, top, slots);
      EntryLoaded(src, DecElements(src, n - 1, off, top, slots).next, top);
    }
  }

  /**
   * Any bytes at all: what is accepted without leaving the frame or an allocation is well formed, its strings
   * short and its arrays whole, and leaves the terminator unread. In a frame so long that an offset can wrap
   * the arguments may overlap; in any other there is at most one for every ten bytes beyond the sixteen fixed ones.
   */
  lemma AcceptedPacket(src: seq<byte>, room: nat, own: bool)
    requires DecPacket(src, room, own).Ok?
    ensures var Ok(p, next) := DecPacket(src, room, own);
            && next <= |src| - 1 && (|src| + 3 < U32 ==> 15 + 10 * |p.args| <= next)
            && p.serial < U16 && p.reserv < U16 && |p.args| < U16
            && Accepts(room, own, |p.args|)
            && TypedPacket(p) && AllComplete(p.args) && RebasedAll(p.args) == p.args
  {
    PowValues();
    LoadBound(src[5..7]);
    LoadBound(src[7..9]);
    LoadBound(src[13..15]);
    ElementsLoaded(src[..|src| - 1], Load(src, 13, 2), 15, true, Load(src, 13, 2));
  }

  // ----- what was read takes no more room than it came from -----

  lemma {:induction false} NumsSize(src: seq<byte>, n: nat, size: nat, off: nat, slots: nat)
    requires DecNums(src, n, size, off, slots).Ok?
    ensures var Ok(xs, next) := DecNums(src, n, size, off, slots); next == off + |Nums(xs, size)|
  {
    if n > 0 {
      NumsSize(src, n - 1, size, off, slots);
      var Ok(xs, _) := DecNums(src, n, size, off, slots);
      assert xs[..n - 1] == DecNums(src, n - 1, size, off, slots).value;
    }
  }

  lemma BStrSize(src: seq<byte>, off: nat, room: bool)
    requires DecBStr(src, off, room).Ok?
    ensures var Ok(u, next) := DecBStr(src, off, room); off + |BStr(u)| <= next
  {
    var n := Load(src, off, 4) / 2;
    var Ok(u, _) := DecNums(src, n, 2, off + 4, UnitSlots(n));
    NumsSize(src, n, 2, off + 4, UnitSlots(n));
    NumsPrefix(u, |Terminated(u)|, 2);
  }

  lemma {:induction false} BStrsSize(src: seq<byte>, n: nat, off: nat, slots: nat)
    requires DecBStrs(src, n, off, slots).Ok?
    ensures var Ok(ss, next) := DecBStrs(src, n, off, slots); off + |BStrs(ss)| <= next
  {
    if n > 0 {
      BStrsSize(src, n - 1, off, slots);
      var Ok(front, at) := DecBStrs(src, n - 1, off, slots);
      BStrSize(src, at, n <= slots);
      assert DecBStrs(src, n, off, slots).value[..n - 1] == front;
    }
  }

  lemma {:induction false} VariantSize(src: seq<byte>, vt: nat, n: nat, off: nat)
    requires off <= |src| && DecVariant(src, vt, n, off).Ok?
    ensures var Ok(v, next) := DecVariant(src, vt, n, off); off + |Payload(v)| <= next
    decreases 0, |src| - off, 3, 0
  {
    if IsArray(vt) {
      var e := ElemType(vt);
      if e == VT_BSTR {
        BStrsSize(src, n, off, Slots(n, BSTR_SIZE));
      } else if e == VT_VARIANT {
        ElementsSize(src, n, off, false, Slots(n, VARIANT_SIZE));
      } else {
        NumsSize(src, n, ElemWidth(e), off, Slots(n, ElemWidth(e)));
      }
    } else if vt == VT_BSTR {
      BStrSize(src, off, true);
    }
  }

  lemma {:induction false} ElementSize(src: seq<byte>, start: nat)
    requires DecElement(src, start).Ok?
    ensures var Ok(v, next) := DecElement(src, start); start + |Element(v)| <= next
    decreases 0, if start <= |src| then |src| - start else 0, 0, 0
  {
    VariantSize(src, Load(src, start, 2), Load(src, start + 2, 4), start + 6);
  }

  lemma {:induction false} EntrySize(src: seq<byte>, off: nat, top: bool)
    requires off <= |src| && DecEntry(src, off, top).Ok? && (top ==> off + 4 < U32)
    ensures var Ok(v, next) := DecEntry(src, off, top); off + |Entry(v, top)| <= next
    decreases if top then 1 else 0, if top then 0 else |src| - off, 1, 0
  {
    ElementSize(src, if top then off + 4 else off);
  }

  lemma {:induction false} ElementsSize(src: seq<byte>, n: nat, off: nat, top: bool, slots: nat)
    requires off <= |src| && DecElements(src, n, off, top, slots).Ok? && (top ==> |src| + 4 < U32)
    ensures var Ok(vs, next) := DecElements(src, n, off, top, slots); off + |Elements(vs, top)| <= next
    decreases if top then 1 else 0, if top then n else |src| - off, 2, n
  {
    if n > 0 {
      ElementsSize(src, n - 1, off, top, slots);
      var Ok(front, at) := DecElements(src, n - 1, off, top, slots);
      EntrySize(src, at, top);
      assert DecElements(src, n, off, top, slots).value[..n - 1] == front;
    }
  }

  lemma ReadSize(src: seq<byte>, room: nat, own: bool)
    requires DecPacket(src, room, own).Ok? && |src| + 3 < U32
    ensures PacketSize(DecPacket(src, room, own).value) <= |src|
  {
    AcceptedPacket(src, room, own);
    var argc := Load(src, 13, 2);
    ElementsSize(src[..|src| - 1], argc, 15, true, argc);
  }

  lemma Reread(p: Packet, room: nat, own: bool)
    requires TypedPacket(p) && AllComplete(p.args) && Accepts(room, own, |p.args|) && RebasedAll(p.args) == p.args
    requires PacketSize(p) < U32
    ensures DecPacket(Frame(p, PacketSize(p), []), room, own) == Ok(p, PacketSize(p) - 1)
  {
    FrameDecodes(p, PacketSize(p), [], room, own);
  }

  /**
   * What was read reads back as itself from a frame made of it, if that is shorter than 2^32 bytes; so it is,
   * and no longer than the one it came from, unless an offset could wrap in that.
   */
  lemma ReadWriteRead(src: seq<byte>, room: nat, own: bool, p: Packet)
    requires DecPacket(src, room, own).Ok? && p == DecPacket(src, room, own).value
    ensures PacketSize(p) < U32 ==> DecPacket(Frame(p, PacketSize(p), []), room, own) == Ok(p, PacketSize(p) - 1)
    ensures |src| + 3 < U32 ==> PacketSize(p) <= |src|
  {
    AcceptedPacket(src, room, own);
    if |src| + 3 < U32 {
      ReadSize(src, room, own);
    }
    if PacketSize(p) < U32 {
      Reread(p, room, own);
    }
  }
}
