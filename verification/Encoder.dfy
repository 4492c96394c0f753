/** The size computation and the writers of bcap_common.c. */
module Encoder {
  import opened Wire
  import opened Variants

  const SIZE_MIN := 16
  const HEADER: byte := 0x01
  const TERMINATOR: byte := 0x04

  // ----- what the writers are to produce -----

  function Nums(xs: seq<nat>, width: nat): seq<byte>
  {
    if xs == [] then [] else Nums(xs[..|xs| - 1], width) + LE(xs[|xs| - 1], width)
  }

  lemma {:induction false} NumsLength(xs: seq<nat>, width: nat)
    ensures |Nums(xs, width)| == |xs| * width
  {
    if xs != [] {
      NumsLength(xs[..|xs| - 1], width);
      assert |xs| * width == width + (|xs| - 1) * width;
    }
  }

  /** SysStringLen yields 16 bits; the length field counts bytes. */
  function BStr(u: seq<nat>): seq<byte>
  {
    LE(2 * |u|, 4) + Nums(u, 2)
  }

  function BStrs(ss: seq<seq<nat>>): seq<byte>
  {
    if ss == [] then [] else BStrs(ss[..|ss| - 1]) + BStr(ss[|ss| - 1])
  }

  function Payload(v: Variant): seq<byte>
    decreases v, 0
  {
    match v
    case Scalar(vt, bits) => LE(bits, Width(vt))
    case Str(u) => BStr(u)
    case Missing(_) => []
    case Vector(e, _, xs) => Nums(xs, ElemWidth(e))
    case Strings(_, ss) => BStrs(ss)
    case Nested(_, vs) => Elements(vs, false)
  }

  /** Type, element count and payload. */
  function Element(v: Variant): seq<byte>
    decreases v, 1
  {
    LE(TypeOf(v), 2) + LE(Count(v), 4) + Payload(v)
  }

  /** A run of elements; a top-level argument carries its length in front. */
  function Elements(vs: seq<Variant>, top: bool): seq<byte>
    decreases vs, 0
  {
    if vs == [] then [] else Elements(vs[..|vs| - 1], top) + Entry(vs[|vs| - 1], top)
  }

  function Entry(v: Variant, top: bool): seq<byte>
    decreases v, 2
  {
    if top then LE(|Element(v)|, 4) + Element(v) else Element(v)
  }

  function PacketSize(p: Packet): nat
  {
    SIZE_MIN + |Elements(p.args, true)|
  }

  /** The frame of p in len bytes, with pad between the arguments and the terminator. */
  function Frame(p: Packet, len: nat, pad: seq<byte>): seq<byte>
    requires -0x8000_0000 <= p.id < 0x8000_0000
  {
    Body(p, len) + pad + [TERMINATOR]
  }

  function Body(p: Packet, len: nat): seq<byte>
    requires -0x8000_0000 <= p.id < 0x8000_0000
  {
    Head(p, len) + Elements(p.args, true)
  }

  function Head(p: Packet, len: nat): (s: seq<byte>)
    requires -0x8000_0000 <= p.id < 0x8000_0000
    ensures |s| == 15
  {
    [HEADER] + LE(len, 4) + LE(p.serial, 2) + LE(p.reserv, 2) + LE(ToU32(p.id), 4) + LE(|p.args|, 2)
  }

  lemma ElementsSplit(vs: seq<Variant>, i: nat, top: bool)
    requires i < |vs|
    ensures Elements(vs[..i + 1], top) == Elements(vs[..i], top) + Entry(vs[i], top)
  {
    assert vs[..i + 1][..i] == vs[..i];
  }

  lemma {:induction false} ElementsPrefix(vs: seq<Variant>, i: nat, top: bool)
    requires i <= |vs|
    ensures |Elements(vs[..i], top)| <= |Elements(vs, top)|
    decreases |vs| - i
  {
    if i == |vs| {
      assert vs[..i] == vs;
    } else {
      ElementsSplit(vs, i, top);
      ElementsPrefix(vs, i + 1, top);
    }
  }

  lemma NumsSplit(xs: seq<nat>, i: nat, width: nat)
    requires i < |xs|
    ensures Nums(xs[..i + 1], width) == Nums(xs[..i], width) + LE(xs[i], width)
  {
    assert xs[..i + 1][..i] == xs[..i];
  }

  lemma {:induction false} NumsPrefix(xs: seq<nat>, i: nat, width: nat)
    requires i <= |xs|
    ensures |Nums(xs[..i], width)| <= |Nums(xs, width)|
    decreases |xs| - i
  {
    if i == |xs| {
      assert xs[..i] == xs;
    } else {
      NumsSplit(xs, i, width);
      NumsPrefix(xs, i + 1, width);
    }
  }

  lemma BStrsSplit(ss: seq<seq<nat>>, i: nat)
    requires i < |ss|
    ensures BStrs(ss[..i + 1]) == BStrs(ss[..i]) + BStr(ss[i])
  {
    assert ss[..i + 1][..i] == ss[..i];
  }

  lemma {:induction false} BStrsPrefix(ss: seq<seq<nat>>, i: nat)
    requires i <= |ss|
    ensures |BStrs(ss[..i])| <= |BStrs(ss)|
    decreases |ss| - i
  {
    if i == |ss| {
      assert ss[..i] == ss;
    } else {
      BStrsSplit(ss, i);
      BStrsPrefix(ss, i + 1);
    }
  }

  // ----- the widths of the fixed-size types, switch by switch -----

  /** bcap_calc_size_variant, of an array element */
  function SizeOfElement(vt: nat): (w: nat)
  {
    if vt == VT_UI1 then 1
    else if vt in {VT_I2, VT_UI2, VT_BOOL} then 2
    else if vt in {VT_I4, VT_UI4, VT_R4} then 4
    else if vt in {VT_I8, VT_UI8, VT_R8, VT_CY, VT_DATE} then 8
    else 0
  }

  /** bcap_calc_size_variant, of a scalar */
  function SizeOfScalar(vt: nat): (w: nat)
  {
    if vt == VT_UI1 then 1
    else if vt in {VT_I2, VT_UI2, VT_BOOL} then 2
    else if vt in {VT_I4, VT_UI4, VT_R4, VT_ERROR} then 4
    else if vt in {VT_I8, VT_UI8, VT_R8, VT_CY, VT_DATE} then 8
    else 0
  }

  /** bcap_vnt2bytary, of an array element */
  function WrittenElement(vt: nat): (w: nat)
  {
    if vt == VT_UI1 then 1
    else if vt == VT_I2 || vt == VT_UI2 || vt == VT_BOOL then 2
    else if vt == VT_I4 || vt == VT_UI4 || vt == VT_R4 then 4
    else if vt == VT_I8 || vt == VT_UI8 || vt == VT_R8 || vt == VT_CY then 8
    else if vt == VT_DATE then 8
    else 0
  }

  /** bcap_vnt2bytary, of a scalar */
  function WrittenScalar(vt: nat): (w: nat)
  {
    if vt == VT_UI1 then 1
    else if vt == VT_I2 then 2 else if vt == VT_UI2 then 2 else if vt == VT_BOOL then 2
    else if vt == VT_I4 then 4 else if vt == VT_UI4 then 4 else if vt == VT_R4 then 4 else if vt == VT_ERROR then 4
    else if vt == VT_I8 then 8 else if vt == VT_UI8 then 8 else if vt == VT_R8 then 8 else if vt == VT_CY then 8
    else if vt == VT_DATE then 8
    else 0
  }

  /** The sizes computed are the sizes written. */
  lemma SizesAreWritten(vt: nat)
    ensures SizeOfElement(vt) == WrittenElement(vt) == ElemWidth(vt)
    ensures SizeOfScalar(vt) == WrittenScalar(vt) == Width(vt)
  {
  }

  /** How many bytes a scalar takes, by the number of its type. */
  lemma ScalarBytes(vt: nat, bits: nat)
    ensures |Payload(Scalar(vt, bits))|
         == if vt == 17 then 1 else if vt in {2, 11, 18} then 2 else if vt in {3, 4, 10, 19} then 4
            else if vt in {5, 6, 7, 20, 21} then 8 else 0
  {
  }

  /** How many bytes an array takes, by the number of its element type. */
  lemma VectorBytes(vt: nat, lb: int, xs: seq<nat>)
    ensures |Payload(Vector(vt, lb, xs))|
         == |xs| * if vt == 17 then 1 else if vt in {2, 11, 18} then 2 else if vt in {3, 4, 19} then 4
                   else if vt in {5, 6, 7, 20, 21} then 8 else 0
  {
    NumsLength(xs, ElemWidth(vt));
  }

  // ----- size -----

  lemma Add32Mod(a: nat, b: nat)
    ensures Add32(a % U32, b) == (a + b) % U32
    ensures Add32(a % U32, b % U32) == (a + b) % U32
  {
  }

  /** bcap_calc_size_variant: the count of payload bytes, in 32-bit arithmetic. */
  method CalcSizeVariant(v: Variant) returns (ret: nat)
    ensures ret == |Payload(v)| % U32
    decreases v, 1
  {
    ret := 0;
    match v {
      case Scalar(vt, _) =>
        SizesAreWritten(vt);
        ret := SizeOfScalar(vt);
      case Str(u) =>
        NumsLength(u, 2);
        ret := (4 + 2 * |u|) % U32;
      case Missing(_) =>
      case Vector(e, _, xs) =>
        NumsLength(xs, ElemWidth(e));
        SizesAreWritten(e);
        ret := (|xs| * SizeOfElement(e)) % U32;
      case Strings(_, ss) =>
        ret := CalcSizeStrings(ss);
      case Nested(_, vs) =>
        ret := CalcSizeNested(vs);
    }
  }

  method CalcSizeStrings(ss: seq<seq<nat>>) returns (ret: nat)
    ensures ret == |BStrs(ss)| % U32
  {
    ret := 0;
    assert ss[..|ss|] == ss;
    for i := 0 to |ss|
      invariant ret == |BStrs(ss[..i])| % U32
    {
      BStrsSplit(ss, i);
      NumsLength(ss[i], 2);
      ghost var n := |BStrs(ss[..i])|;
      Add32Mod(n, 4);
      Add32Mod(n + 4, 2 * |ss[i]|);
      ret := Add32(ret, 4);
      ret := Add32(ret, 2 * |ss[i]|);
    }
  }

  method CalcSizeNested(vs: seq<Variant>) returns (ret: nat)
    ensures ret == |Elements(vs, false)| % U32
    decreases vs, 0
  {
    ret := 0;
    assert vs[..|vs|] == vs;
    for i := 0 to |vs|
      invariant ret == |Elements(vs[..i], false)| % U32
    {
      ElementsSplit(vs, i, false);
      var size := CalcSizeVariant(vs[i]);
      ghost var n := |Elements(vs[..i], false)|;
      Add32Mod(n, 6);
      Add32Mod(n + 6, |Payload(vs[i])|);
      ret := Add32(ret, 6);
      ret := Add32(ret, size);
    }
  }

  /** bcap_calc_size_packet */
  method CalcSizePacket(p: Packet) returns (ret: nat)
    ensures ret == PacketSize(p) % U32
  {
    ret := SIZE_MIN;
    assert p.args[..|p.args|] == p.args;
    for i := 0 to |p.args|
      invariant ret == (SIZE_MIN + |Elements(p.args[..i], true)|) % U32
    {
      ElementsSplit(p.args, i, true);
      var size := CalcSizeVariant(p.args[i]);
      ghost var n := SIZE_MIN + |Elements(p.args[..i], true)|;
      Add32Mod(10 + |Payload(p.args[i])|, 0);
      Add32Mod(|Payload(p.args[i])|, 10);
      Add32Mod(n, 10 + |Payload(p.args[i])|);
      ret := Add32(ret, Add32(size, 10));
    }
  }

  // ----- the bounded writers -----

  // Where a store goes behind the bound: a field or byte array slips through its test.

  predicate BStrSpills(u: seq<nat>, off: nat, len: nat)
  {
    Slips(off, 4, len) || (off + 4 <= len && FieldSlips(|u|, 2, off + 4, len))
  }

  predicate BStrsSpill(ss: seq<seq<nat>>, off: nat, len: nat)
  {
    ss != [] &&
    var next := off + |BStr(ss[0])|;
    if next <= len then BStrsSpill(ss[1..], next, len) else BStrSpills(ss[0], off, len)
  }

  /** The type or the count does. */
  predicate HeadSpills(v: Variant, start: nat, len: nat)
  {
    Slips(start, 2, len) || (start + 2 <= len && !v.Missing? && Slips(start + 2, 4, len))
  }

  /** A field of the payload does, or a byte array, which is tested and copied as a whole. */
  ghost predicate Spills(v: Variant, off: nat, len: nat)
    decreases v, 0
  {
    match v
    case Scalar(vt, _) => Slips(off, Width(vt), len)
    case Str(u) => BStrSpills(u, off, len)
    case Missing(_) => false
    case Vector(e, _, xs) => if e == VT_UI1 then Slips(off, |xs|, len) else FieldSlips(|xs|, ElemWidth(e), off, len)
    case Strings(_, ss) => BStrsSpill(ss, off, len)
    case Nested(_, vs) => ElementsSpill(vs, off, len, false)
  }

  ghost predicate ElementSpills(v: Variant, start: nat, len: nat)
    decreases v, 1
  {
    HeadSpills(v, start, len) || (!v.Missing? && start + 6 <= len && Spills(v, start + 6, len))
  }

  /**
   * The place of a top-level length field is skipped untested. Where that wraps, the element is written over
   * the start of the frame, and its length, stored last, behind the end.
   */
  ghost predicate EntrySpills(v: Variant, off: nat, len: nat, top: bool)
    decreases v, 2
  {
    var start := if top then Add32(off, 4) else off;
    ElementSpills(v, start, len)
    || (top && off + 4 >= U32 && Complete(v) && start + |Element(v)| <= len)
  }

  /** The first element that does not fit does. */
  ghost predicate ElementsSpill(vs: seq<Variant>, off: nat, len: nat, top: bool)
    decreases vs, 0
  {
    vs != [] &&
    var next := off + |Entry(vs[0], top)|;
    if Complete(vs[0]) && next <= len then ElementsSpill(vs[1..], next, len, top) else EntrySpills(vs[0], off, len, top)
  }

  /** How a writer ends. */
  function Written(fits: bool, spills: bool): Status
  {
    if fits then S_OK else if spills then OVERWRITE else E_INVALIDARG
  }

  lemma {:induction false} BStrsFirst(ss: seq<seq<nat>>)
    requires ss != []
    ensures |BStrs(ss)| == |BStr(ss[0])| + |BStrs(ss[1..])|
  {
    if |ss| == 1 {
      assert ss[1..] == [] && ss[..0] == [];
    } else {
      var front, t := ss[..|ss| - 1], ss[1..];
      BStrsFirst(front);
      assert front[0] == ss[0] && t[|t| - 1] == ss[|ss| - 1];
      assert front[1..] == t[..|t| - 1];
    }
  }

  lemma {:induction false} ElementsFirst(vs: seq<Variant>, top: bool)
    requires vs != []
    ensures |Elements(vs, top)| == |Entry(vs[0], top)| + |Elements(vs[1..], top)|
  {
    if |vs| == 1 {
      assert vs[1..] == [] && vs[..0] == [];
    } else {
      ElementsFirst(vs[..|vs| - 1], top);
      assert vs[..|vs| - 1][1..] == vs[1..][..|vs| - 2];
    }
  }

  lemma BStrsSpillNext(ss: seq<seq<nat>>, i: nat, off: nat, len: nat)
    requires i < |ss|
    ensures var next := off + |BStr(ss[i])|;
            BStrsSpill(ss[i..], off, len)
            == if next <= len then BStrsSpill(ss[i + 1..], next, len) else BStrSpills(ss[i], off, len)
  {
    assert ss[i..][1..] == ss[i + 1..];
  }

  lemma ElementsSpillNext(vs: seq<Variant>, i: nat, off: nat, len: nat, top: bool)
    requires i < |vs|
    ensures var next := off + |Entry(vs[i], top)|;
            ElementsSpill(vs[i..], off, len, top)
            == if Complete(vs[i]) && next <= len then ElementsSpill(vs[i + 1..], next, len, top)
               else EntrySpills(vs[i], off, len, top)
  {
    assert vs[i..][1..] == vs[i + 1..];
  }

  lemma {:induction false} BStrsFit(ss: seq<seq<nat>>, off: nat, len: nat)
    requires off + |BStrs(ss)| <= len
    ensures !BStrsSpill(ss, off, len)
  {
    if ss != [] {
      BStrsFirst(ss);
      BStrsFit(ss[1..], off + |BStr(ss[0])|, len);
    }
  }

  /** What fits does not spill. */
  lemma FitsNoSpill(v: Variant, off: nat, len: nat)
    requires off + |Payload(v)| <= len < U32
    ensures !Spills(v, off, len)
    decreases v, 0
  {
    match v
    case Scalar(_, _) =>
    case Str(u) =>
      NumsLength(u, 2);
      FittingFields(|u|, 2, off + 4, len);
    case Missing(_) =>
    case Vector(e, _, xs) =>
      NumsLength(xs, ElemWidth(e));
      FittingFields(|xs|, ElemWidth(e), off, len);
    case Strings(_, ss) => BStrsFit(ss, off, len);
    case Nested(_, vs) => FitElementsNoSpill(vs, off, len, false);
  }

  lemma FittingEntry(v: Variant, off: nat, len: nat, top: bool)
    requires off + |Entry(v, top)| <= len < U32
    ensures !EntrySpills(v, off, len, top)
    decreases v, 1
  {
    assert |Entry(v, top)| == (if top then 10 else 6) + |Payload(v)|;
    FitsNoSpill(v, off + (if top then 10 else 6), len);
  }

  lemma {:induction false} FitElementsNoSpill(vs: seq<Variant>, off: nat, len: nat, top: bool)
    requires off + |Elements(vs, top)| <= len < U32
    ensures !ElementsSpill(vs, off, len, top)
    decreases vs, 0
  {
    if vs != [] {
      var v := vs[0];
      ElementsFirst(vs, top);
      FitElementsNoSpill(vs[1..], off + |Entry(v, top)|, len, top);
      FittingEntry(v, off, len, top);
    }
  }

  /** Only positions off to len - 1 differ; where an offset can wrap, those before off may too. */
  ghost predicate Framed(was: seq<byte>, now: seq<byte>, off: nat, len: nat)
  {
    |was| == |now| && forall i :: 0 <= i < |was| && ((i < off && len + 4 < U32) || len <= i) ==> now[i] == was[i]
  }

  lemma SpliceFramed(was: seq<byte>, off: nat, p: seq<byte>, len: nat)
    requires off + |p| <= len <= |was|
    ensures Framed(was, Splice(was, off, p), off, len)
  {
  }

  lemma SpliceNext(was: seq<byte>, off: nat, s: seq<byte>, k: nat)
    requires off + |s| <= |was| && k < |s|
    ensures Splice(was, off, s[..k])[off + k := s[k]] == Splice(was, off, s[..k + 1])
  {
  }

  /** memcpy_le of an integer; the position is in range. */
  method PutLE(dst: array<byte>, off: nat, n: nat, size: nat)
    requires off + size <= dst.Length
    modifies dst
    ensures dst[..] == Splice(old(dst[..]), off, LE(n, size))
  {
    var rest := n;
    for k := 0 to size
      invariant rest == Shifted(n, k)
      invariant dst[..] == Splice(old(dst[..]), off, LE(n, size)[..k])
    {
      dst[off + k] := rest % 256;
      rest := rest / 256;
      SpliceNext(old(dst[..]), off, LE(n, size), k);
    }
    assert LE(n, size)[..size] == LE(n, size);
  }

  /** A writer on its way: done stands from off to next. */
  ghost predicate Underway(was: seq<byte>, now: seq<byte>, off: nat, done: seq<byte>, next: nat, len: nat)
  {
    off + |done| == next <= len <= |was| && now == Splice(was, off, done) && Framed(was, now, off, len)
  }

  lemma Starting(was: seq<byte>, off: nat, len: nat)
    requires off <= len <= |was|
    ensures Underway(was, was, off, [], off, len)
  {
  }

  /** The state of the loop in front of value i. */
  ghost predicate NumsUpTo(was: seq<byte>, now: seq<byte>, off: nat, xs: seq<nat>, i: nat, size: nat,
                           next: nat, len: nat)
  {
    && i <= |xs| && Underway(was, now, off, Nums(xs[..i], size), next, len)
    && FieldSlips(|xs|, size, off, len) == FieldSlips(|xs| - i, size, next, len)
  }

  /** Fixed-size values, each checked against the bound before it is stored. */
  method WriteNums(xs: seq<nat>, size: nat, dst: array<byte>, len: nat, off: nat) returns (st: Status, next: nat)
    requires off <= len <= dst.Length
    modifies dst
    ensures st == Written(off + |Nums(xs, size)| <= len, FieldSlips(|xs|, size, off, len))
    ensures st == S_OK ==> next == off + |Nums(xs, size)| && dst[..] == Splice(old(dst[..]), off, Nums(xs, size))
    ensures Framed(old(dst[..]), dst[..], off, len)
  {
    st, next := S_OK, off;
    Starting(dst[..], off, len);
    assert xs[..|xs|] == xs;
    for i := 0 to |xs|
      invariant st == S_OK && NumsUpTo(old(dst[..]), dst[..], off, xs, i, size, next, len)
    {
      st, next := WriteNum(xs, i, size, dst, len, off, next, old(dst[..]));
      if st != S_OK {
        return;
      }
    }
  }

  method WriteNum(xs: seq<nat>, i: nat, size: nat, dst: array<byte>, len: nat, ghost off: nat, next: nat,
                  ghost was: seq<byte>)
    returns (st: Status, after: nat)
    requires |was| == dst.Length && i < |xs| && NumsUpTo(was, dst[..], off, xs, i, size, next, len)
    modifies dst
    ensures if st == S_OK then NumsUpTo(was, dst[..], off, xs, i + 1, size, after, len)
            else st == Written(off + |Nums(xs, size)| <= len, FieldSlips(|xs|, size, off, len))
                 && Framed(was, dst[..], off, len)
  {
    NumsSplit(xs, i, size);
    NumsPrefix(xs, i + 1, size);
    st, after := AppendLE(dst, off, next, xs[i], size, len, was, Nums(xs[..i], size));
  }

  /** One more value behind those written since off. */
  method AppendLE(dst: array<byte>, ghost off: nat, next: nat, x: nat, size: nat, len: nat,
                  ghost was: seq<byte>, ghost done: seq<byte>) returns (st: Status, after: nat)
    requires |was| == dst.Length && Underway(was, dst[..], off, done, next, len)
    modifies dst
    ensures st == Written(next + size <= len, Slips(next, size, len))
    ensures if st == S_OK then Underway(was, dst[..], off, done + LE(x, size), after, len)
            else Framed(was, dst[..], off, len)
  {
    if Add32(next, size) > len { return E_INVALIDARG, next; }
    if next + size > len { return OVERWRITE, next; }
    PutLE(dst, next, x, size);
    SpliceAppend(was, off, done, LE(x, size));
    SpliceFramed(was, off, done + LE(x, size), len);
    st, after := S_OK, next + size;
  }

  method WriteBStr(u: seq<nat>, dst: array<byte>, len: nat, off: nat) returns (st: Status, next: nat)
    requires off <= len <= dst.Length
    modifies dst
    ensures st == Written(off + |BStr(u)| <= len, BStrSpills(u, off, len))
    ensures st == S_OK ==> next == off + |BStr(u)| && dst[..] == Splice(old(dst[..]), off, BStr(u))
    ensures Framed(old(dst[..]), dst[..], off, len)
  {
    next := off;
    if Add32(next, 4) > len { return E_INVALIDARG, next; }
    if next + 4 > len { return OVERWRITE, next; }
    PutLE(dst, next, 2 * |u|, 4);
    next := next + 4;
    st, next := WriteNums(u, 2, dst, len, next);
    if st == S_OK {
      SpliceAppend(old(dst[..]), off, LE(2 * |u|, 4), Nums(u, 2));
    }
  }

  /** An array of fixed-size values; bytes are copied in one go, after a test in 32 bits. */
  method WriteVector(e: nat, xs: seq<nat>, dst: array<byte>, len: nat, off: nat) returns (st: Status, next: nat)
    requires off <= len <= dst.Length
    modifies dst
    ensures st == Written(off + |Nums(xs, ElemWidth(e))| <= len,
                          if e == VT_UI1 then Slips(off, |xs|, len) else FieldSlips(|xs|, ElemWidth(e), off, len))
    ensures st == S_OK ==>
              next == off + |Nums(xs, ElemWidth(e))| && dst[..] == Splice(old(dst[..]), off, Nums(xs, ElemWidth(e)))
    ensures Framed(old(dst[..]), dst[..], off, len)
  {
    if e == VT_UI1 {
      NumsLength(xs, 1);
      if Add32(off, |xs|) > len { return E_INVALIDARG, off; }
      if off + |xs| > len { return OVERWRITE, off; }
    }
    SizesAreWritten(e);
    st, next := WriteNums(xs, WrittenElement(e), dst, len, off);
  }

  /** bcap_vnt2bytary: the payload of one value. */
  method WriteVariant(v: Variant, dst: array<byte>, len: nat, off: nat) returns (st: Status, next: nat)
    requires off <= len <= dst.Length && len < U32
    modifies dst
    ensures st == Written((v.Missing? || Complete(v)) && off + |Payload(v)| <= len, Spills(v, off, len))
    ensures st == S_OK ==> next == off + |Payload(v)| && dst[..] == Splice(old(dst[..]), off, Payload(v))
    ensures Framed(old(dst[..]), dst[..], off, len)
    decreases v, 0
  {
    match v {
      case Scalar(vt, bits) =>
        SizesAreWritten(vt);
        st, next := WriteNums([bits], WrittenScalar(vt), dst, len, off);
        assert Nums([bits], Width(vt)) == LE(bits, Width(vt));
      case Str(u) =>
        st, next := WriteBStr(u, dst, len, off);
      case Missing(_) =>
        st, next := S_OK, off;
      case Vector(e, _, xs) =>
        st, next := WriteVector(e, xs, dst, len, off);
      case Strings(_, ss) =>
        st, next := WriteBStrs(ss, dst, len, off);
      case Nested(_, vs) =>
        st, next := WriteElements(vs, dst, len, off, false);
    }
  }

  method WriteBStrs(ss: seq<seq<nat>>, dst: array<byte>, len: nat, off: nat) returns (st: Status, next: nat)
    requires off <= len <= dst.Length
    modifies dst
    ensures st == Written(off + |BStrs(ss)| <= len, BStrsSpill(ss, off, len))
    ensures st == S_OK ==> next == off + |BStrs(ss)| && dst[..] == Splice(old(dst[..]), off, BStrs(ss))
    ensures Framed(old(dst[..]), dst[..], off, len)
  {
    st, next := S_OK, off;
    Starting(dst[..], off, len);
    assert ss[..|ss|] == ss;
    for i := 0 to |ss|
      invariant st == S_OK && Underway(old(dst[..]), dst[..], off, BStrs(ss[..i]), next, len)
      invariant BStrsSpill(ss, off, len) == BStrsSpill(ss[i..], next, len)
    {
      BStrsSplit(ss, i);
      BStrsPrefix(ss, i + 1);
      BStrsSpillNext(ss, i, next, len);
      st, next := AppendBStr(dst, off, next, ss[i], len, old(dst[..]), BStrs(ss[..i]));
      if st != S_OK {
        return;
      }
    }
  }

  lemma FramedOn(a: seq<byte>, b: seq<byte>, c: seq<byte>, lo: nat, mid: nat, len: nat)
    requires Framed(a, b, lo, len) && Framed(b, c, mid, len) && lo <= mid
    ensures Framed(a, c, lo, len)
  {
  }

  /** One more string behind those written since off. */
  method AppendBStr(dst: array<byte>, ghost off: nat, next: nat, u: seq<nat>, len: nat,
                    ghost was: seq<byte>, ghost done: seq<byte>) returns (st: Status, after: nat)
    requires |was| == dst.Length && Underway(was, dst[..], off, done, next, len)
    modifies dst
    ensures st == Written(next + |BStr(u)| <= len, BStrSpills(u, next, len))
    ensures if st == S_OK then Underway(was, dst[..], off, done + BStr(u), after, len)
            else Framed(was, dst[..], off, len)
  {
    ghost var mid := dst[..];
    st, after := WriteBStr(u, dst, len, next);
    FramedOn(was, mid, dst[..], off, next, len);
    if st == S_OK {
      SpliceAppend(was, off, done, BStr(u));
    }
  }

  /** bcap_vntary2bytary: the length field of a top-level argument is stored after its element. */
  method WriteElements(vs: seq<Variant>, dst: array<byte>, len: nat, off: nat, top: bool)
    returns (st: Status, next: nat)
    requires off <= len <= dst.Length && len < U32
    modifies dst
    ensures st == Written(AllComplete(vs) && off + |Elements(vs, top)| <= len, ElementsSpill(vs, off, len, top))
    ensures st == S_OK ==>
              next == off + |Elements(vs, top)| && dst[..] == Splice(old(dst[..]), off, Elements(vs, top))
    ensures Framed(old(dst[..]), dst[..], off, len)
    decreases vs, 0
  {
    st, next := S_OK, off;
    Starting(dst[..], off, len);
    assert vs[..|vs|] == vs;
    for i := 0 to |vs|
      invariant st == S_OK && AllComplete(vs[..i])
      invariant Underway(old(dst[..]), dst[..], off, Elements(vs[..i], top), next, len)
      invariant ElementsSpill(vs, off, len, top) == ElementsSpill(vs[i..], next, len, top)
    {
      ElementsSplit(vs, i, top);
      ElementsPrefix(vs, i + 1, top);
      ElementsSpillNext(vs, i, next, len, top);
      st, next := AppendEntry(dst, off, next, vs[i], top, len, old(dst[..]), Elements(vs[..i], top));
      if st != S_OK {
        assert !AllComplete(vs) || off + |Elements(vs, top)| > len;
        return;
      }
    }
  }

  /** One more element behind those written since off. */
  method AppendEntry(dst: array<byte>, ghost off: nat, next: nat, v: Variant, top: bool, len: nat,
                     ghost was: seq<byte>, ghost done: seq<byte>) returns (st: Status, after: nat)
    requires |was| == dst.Length && Underway(was, dst[..], off, done, next, len) && len < U32
    modifies dst
    ensures st == Written(Complete(v) && next + |Entry(v, top)| <= len, EntrySpills(v, next, len, top))
    ensures if st == S_OK then Underway(was, dst[..], off, done + Entry(v, top), after, len)
            else Framed(was, dst[..], off, len)
    decreases v, 4
  {
    ghost var mid := dst[..];
    st, after := WriteEntry(v, dst, len, next, top);
    FramedOn(was, mid, dst[..], off, next, len);
    if st == S_OK {
      SpliceAppend(was, off, done, Entry(v, top));
    }
  }

  /** The body of that loop. */
  method WriteEntry(v: Variant, dst: array<byte>, len: nat, off: nat, top: bool) returns (st: Status, next: nat)
    requires off <= len <= dst.Length && len < U32
    modifies dst
    ensures st == Written(Complete(v) && off + |Entry(v, top)| <= len, EntrySpills(v, off, len, top))
    ensures st == S_OK ==> next == off + |Entry(v, top)| && dst[..] == Splice(old(dst[..]), off, Entry(v, top))
    ensures Framed(old(dst[..]), dst[..], off, len)
    decreases v, 3
  {
    if top {
      st, next := WriteArgument(v, dst, len, off);
    } else {
      st, next := WriteElement(v, dst, len, off);
    }
  }

  method WriteArgument(v: Variant, dst: array<byte>, len: nat, off: nat) returns (st: Status, next: nat)
    requires off <= len <= dst.Length && len < U32
    modifies dst
    ensures st == Written(Complete(v) && off + |Entry(v, true)| <= len, EntrySpills(v, off, len, true))
    ensures st == S_OK ==> next == off + |Entry(v, true)| && dst[..] == Splice(old(dst[..]), off, Entry(v, true))
    ensures Framed(old(dst[..]), dst[..], off, len)
    decreases v, 2
  {
    ghost var was, e := dst[..], Element(v);
    assert |Entry(v, true)| == 4 + |e|;
    var start := Add32(off, 4);
    st, next := WriteElement(v, dst, len, start);
    if st == S_OK {
      if off + 4 > len { return OVERWRITE, next; }
      PutLength(dst, off, next, len, was, e);
    }
  }

  /** The length field in front of the element e, which ends at next. */
  method PutLength(dst: array<byte>, off: nat, next: nat, ghost len: nat, ghost was: seq<byte>, ghost e: seq<byte>)
    requires off + 4 + |e| == next <= len <= dst.Length == |was| && dst[..] == Splice(was, off + 4, e)
    modifies dst
    ensures dst[..] == Splice(was, off, LE(|e|, 4) + e) && Framed(was, dst[..], off, len)
  {
    PutLE(dst, off, next - off - 4, 4);
    SplicePrepend(was, off, LE(|e|, 4), e);
    SpliceFramed(was, off, LE(|e|, 4) + e, len);
  }

  /** The type and the element count; a NULL parray has no count. */
  method WriteTypeCount(v: Variant, dst: array<byte>, len: nat, off: nat) returns (st: Status, next: nat)
    requires len <= dst.Length
    modifies dst
    ensures st == Written(!v.Missing? && off + 6 <= len, HeadSpills(v, off, len))
    ensures st == S_OK ==> next == off + 6 && dst[..] == Splice(old(dst[..]), off, LE(TypeOf(v), 2) + LE(Count(v), 4))
    ensures Framed(old(dst[..]), dst[..], off, len)
  {
    ghost var was := dst[..];
    next := off;
    if Add32(next, 2) > len { return E_INVALIDARG, next; }
    if next + 2 > len { return OVERWRITE, next; }
    PutLE(dst, next, TypeOf(v), 2);
    next := next + 2;
    if v.Missing? || Add32(next, 4) > len { return E_INVALIDARG, next; }
    if next + 4 > len { return OVERWRITE, next; }
    PutLE(dst, next, Count(v), 4);
    next := next + 4;
    SpliceAppend(was, off, LE(TypeOf(v), 2), LE(Count(v), 4));
    st := S_OK;
  }

  /** Type, count and payload; the start may lie past the bound, where the first check fails. */
  method WriteElement(v: Variant, dst: array<byte>, len: nat, off: nat) returns (st: Status, next: nat)
    requires len <= dst.Length && len < U32
    modifies dst
    ensures st == Written(Complete(v) && off + |Element(v)| <= len, ElementSpills(v, off, len))
    ensures st == S_OK ==> next == off + |Element(v)| && dst[..] == Splice(old(dst[..]), off, Element(v))
    ensures Framed(old(dst[..]), dst[..], off, len)
    decreases v, 1
  {
    st, next := WriteTypeCount(v, dst, len, off);
    if st == S_OK {
      ghost var head := LE(TypeOf(v), 2) + LE(Count(v), 4);
      ghost var was := old(dst[..]);
      st, next := WriteVariant(v, dst, len, next);
      if st == S_OK {
        SpliceAppend(was, off, head, Payload(v));
      }
    }
  }

  /** The fixed fields of the frame. */
  method WriteHead(p: Packet, dst: array<byte>)
    requires -0x8000_0000 <= p.id < 0x8000_0000
    requires dst.Length >= SIZE_MIN
    modifies dst
    ensures dst[..] == Splice(old(dst[..]), 0, Head(p, dst.Length))
  {
    ghost var was := dst[..];
    dst[0] := HEADER;
    ghost var h := [HEADER];
    assert dst[..] == Splice(was, 0, h);
    PutLE(dst, 1, dst.Length, 4);
    SpliceAppend(was, 0, h, LE(dst.Length, 4));
    h := h + LE(dst.Length, 4);
    PutLE(dst, 5, p.serial, 2);
    SpliceAppend(was, 0, h, LE(p.serial, 2));
    h := h + LE(p.serial, 2);
    PutLE(dst, 7, p.reserv, 2);
    SpliceAppend(was, 0, h, LE(p.reserv, 2));
    h := h + LE(p.reserv, 2);
    PutLE(dst, 9, ToU32(p.id), 4);
    SpliceAppend(was, 0, h, LE(ToU32(p.id), 4));
    h := h + LE(ToU32(p.id), 4);
    PutLE(dst, 13, |p.args|, 2);
    SpliceAppend(was, 0, h, LE(|p.args|, 2));
  }

  /** bcap_packet2bytary: the whole buffer is the frame, whatever it held before. */
  method WritePacket(p: Packet, dst: array<byte>) returns (st: Status)
    requires -0x8000_0000 <= p.id < 0x8000_0000 && dst.Length < U32
    modifies dst
    ensures st == Written(AllComplete(p.args) && PacketSize(p) <= dst.Length,
                          dst.Length >= SIZE_MIN && ElementsSpill(p.args, 15, dst.Length - 1, true))
    ensures st == S_OK ==> dst[..] == Frame(p, dst.Length, Zeros(dst.Length - PacketSize(p)))
  {
    var len := dst.Length;
    if len < SIZE_MIN {
      return E_INVALIDARG;
    }
    forall i | 0 <= i < len {
      dst[i] := 0;
    }
    ghost var z := Zeros(len);
    assert dst[..] == z;
    WriteHead(p, dst);
    var next;
    st, next := WriteElements(p.args, dst, len - 1, 15, true);
    if st == S_OK {
      SpliceAppend(z, 0, Head(p, len), Elements(p.args, true));
      FrameOfZeros(p, len);
    }
    dst[len - 1] := TERMINATOR;
  }

  lemma FrameOfZeros(p: Packet, len: nat)
    requires -0x8000_0000 <= p.id < 0x8000_0000
    requires PacketSize(p) <= len
    ensures Splice(Zeros(len), 0, Body(p, len))[len - 1 := TERMINATOR]
         == Frame(p, len, Zeros(len - PacketSize(p)))
  {
  }
}
