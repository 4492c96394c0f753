/** VARIANT values and b-CAP packets (dn_common.h, bcap_common.h). */
module Variants {
  import opened Wire

  const VT_EMPTY := 0
  const VT_NULL := 1
  const VT_I2 := 2
  const VT_I4 := 3
  const VT_R4 := 4
  const VT_R8 := 5
  const VT_CY := 6
  const VT_DATE := 7
  const VT_BSTR := 8
  const VT_ERROR := 10
  const VT_BOOL := 11
  const VT_VARIANT := 12
  const VT_UI1 := 17
  const VT_UI2 := 18
  const VT_UI4 := 19
  const VT_I8 := 20
  const VT_UI8 := 21
  const VT_ARRAY := 0x2000

  /** SysAllocStringLen computes a byte size of 4 * (n + 1) in 16 bits. */
  const MAX_BSTR := 16382

  /**
   * A VARIANT by value. Scalar bits are the bit pattern of the union member the type selects;
   * types without a member carry no bits. Str holds the code units before the terminating NUL.
   * Missing is an array type whose parray is NULL.
   */
  datatype Variant =
    | Scalar(vt: nat, bits: nat)
    | Str(units: seq<nat>)
    | Missing(vt: nat)
    | Vector(elemVt: nat, lbound: int, elems: seq<nat>)
    | Strings(lbound: int, strs: seq<seq<nat>>)
    | Nested(lbound: int, items: seq<Variant>)

  datatype Packet = Packet(serial: nat, reserv: nat, id: int, args: seq<Variant>)

  /** vt & VT_ARRAY */
  predicate IsArray(vt: nat)
  {
    (vt / VT_ARRAY) % 2 == 1
  }

  /** vt ^ VT_ARRAY, for a type with the bit set */
  function ElemType(vt: nat): nat
    requires IsArray(vt)
  {
    vt - VT_ARRAY
  }

  /** Bytes of one array element of a fixed-size type, 0 for any other type. */
  function ElemWidth(vt: nat): (w: nat)
    ensures w in {0, 1, 2, 4, 8}
  {
    if vt == VT_UI1 then 1
    else if vt == VT_I2 || vt == VT_UI2 || vt == VT_BOOL then 2
    else if vt == VT_I4 || vt == VT_UI4 || vt == VT_R4 then 4
    else if vt == VT_I8 || vt == VT_UI8 || vt == VT_R8 || vt == VT_CY || vt == VT_DATE then 8
    else 0
  }

  /** Bytes of a scalar; VT_ERROR exists only as a scalar. */
  function Width(vt: nat): (w: nat)
    ensures w in {0, 1, 2, 4, 8}
  {
    if vt == VT_ERROR then 4 else ElemWidth(vt)
  }

  function TypeOf(v: Variant): nat
  {
    match v
    case Scalar(vt, _) => vt
    case Str(_) => VT_BSTR
    case Missing(vt) => vt
    case Vector(e, _, _) => e + VT_ARRAY
    case Strings(_, _) => VT_BSTR + VT_ARRAY
    case Nested(_, _) => VT_VARIANT + VT_ARRAY
  }

  function Count(v: Variant): nat
  {
    match v
    case Scalar(_, _) => 1
    case Str(_) => 1
    case Missing(_) => 0
    case Vector(_, _, xs) => |xs|
    case Strings(_, ss) => |ss|
    case Nested(_, vs) => |vs|
  }

  /** Code units of a C string: 16 bits each and none of them NUL. */
  predicate Units(u: seq<nat>)
  {
    forall i :: 0 <= i < |u| ==> 0 < u[i] < U16
  }

  // sizeof(BSTR) and sizeof(VARIANT) on a 64-bit host
  const BSTR_SIZE := 8
  const VARIANT_SIZE := 16

  /** SafeArrayCreateVector's element size, where the host's DATE is a double; 0 where it creates nothing. */
  function CreatedWidth(vt: nat): (w: nat)
    ensures w in {0, 1, 2, 4, 8, 16}
  {
    if vt == VT_UI1 then 1
    else if vt == VT_I2 || vt == VT_UI2 || vt == VT_BOOL then 2
    else if vt == VT_I4 || vt == VT_UI4 || vt == VT_R4 then 4
    else if vt == VT_I8 || vt == VT_UI8 || vt == VT_R8 || vt == VT_CY then 8
    else if vt == VT_DATE then 8
    else if vt == VT_BSTR then 8
    else if vt == VT_VARIANT then 16
    else 0
  }

  /** How many elements fit the memory SafeArrayCreateVector allocates: it multiplies in 32 bits. */
  function Slots(n: nat, width: nat): (k: nat)
    requires width <= 16
    ensures k <= n
  {
    if width == 0 then 0 else n % (U32 / width)
  }

  lemma SlotsBytes(n: nat, width: nat)
    requires width in {1, 2, 4, 8, 16}
    ensures Slots(n, width) * width == n * width % U32
    ensures Slots(n, width) == n <==> n * width < U32
  {
    if width == 1 {
      BytesWrap(n, U32, 1);
    } else if width == 2 {
      BytesWrap(n, 0x8000_0000, 2);
    } else if width == 4 {
      BytesWrap(n, 0x4000_0000, 4);
    } else if width == 8 {
      BytesWrap(n, 0x2000_0000, 8);
    } else {
      BytesWrap(n, 0x1000_0000, 16);
    }
  }

  lemma BytesWrap(n: nat, m: nat, w: nat)
    requires m > 0 && w > 0 && m * w == U32
    ensures n % m * w == n * w % U32
    ensures n % m == n <==> n * w < U32
  {
    var q, r := n / m, n % m;
    assert n * w == q * U32 + r * w by {
      assert n == q * m + r;
      assert (q * m + r) * w == q * (m * w) + r * w;
    }
    assert r * w < m * w by { Smaller(r, m, w); }
    Remainder(n * w, q, r * w);
    if q == 0 {
      assert n == r;
    } else {
      assert q * U32 >= U32;
    }
  }

  lemma Smaller(r: nat, m: nat, w: nat)
    requires r < m && w > 0
    ensures r * w < m * w
  {
  }

  lemma Remainder(x: nat, q: nat, r: nat)
    requires x == q * U32 + r && r < U32
    ensures x % U32 == r
  {
  }

  /** How many units fit the memory SysAllocStringLen allocates: 4 * (n + 1) bytes, in 16 bits. */
  function UnitSlots(n: nat): (k: nat)
    ensures k <= n <==> n > MAX_BSTR
  {
    (n % U16 + 1) % (U16 / 4)
  }

  /** The value is one the C types can hold, in arrays SafeArrayCreateVector can make. */
  ghost predicate Typed(v: Variant)
  {
    match v
    case Scalar(vt, bits) =>
      vt < U16 && !IsArray(vt) && vt != VT_BSTR && bits < Pow256(Width(vt))
    case Str(u) => Units(u)
    case Missing(vt) => vt < U16 && IsArray(vt)
    case Vector(e, _, xs) =>
      && e + VT_ARRAY < U16 && !IsArray(e) && e != VT_BSTR && e != VT_VARIANT
      && Slots(|xs|, ElemWidth(e)) == |xs|
      && forall i :: 0 <= i < |xs| ==> xs[i] < Pow256(ElemWidth(e))
    case Strings(_, ss) =>
      Slots(|ss|, BSTR_SIZE) == |ss| && forall i :: 0 <= i < |ss| ==> Units(ss[i])
    case Nested(_, vs) =>
      Slots(|vs|, VARIANT_SIZE) == |vs| && forall i :: 0 <= i < |vs| ==> Typed(vs[i])
  }

  /** Every string fits the 16-bit allocation size. */
  ghost predicate ShortStrings(v: Variant)
  {
    match v
    case Str(u) => |u| <= MAX_BSTR
    case Strings(_, ss) => forall i :: 0 <= i < |ss| ==> |ss[i]| <= MAX_BSTR
    case Nested(_, vs) => forall i :: 0 <= i < |vs| ==> ShortStrings(vs[i])
    case _ => true
  }

  /** No array is missing, at any depth: the writer refuses a NULL parray. */
  ghost predicate Complete(v: Variant)
  {
    match v
    case Missing(_) => false
    case Nested(_, vs) => forall i :: 0 <= i < |vs| ==> Complete(vs[i])
    case _ => true
  }

  ghost predicate AllComplete(vs: seq<Variant>)
  {
    forall i :: 0 <= i < |vs| ==> Complete(vs[i])
  }

  ghost predicate TypedPacket(p: Packet)
  {
    && p.serial < U16 && p.reserv < U16 && -0x8000_0000 <= p.id < 0x8000_0000
    && |p.args| < U16
    && forall i :: 0 <= i < |p.args| ==> Typed(p.args[i]) && ShortStrings(p.args[i])
  }

  /** The value with every array's lower bound set to lb: 1 as the packet reader creates arrays. */
  function Rebased(v: Variant, lb: int := 1): (r: Variant)
    ensures TypeOf(r) == TypeOf(v) && Count(r) == Count(v)
  {
    match v
    case Vector(e, _, xs) => Vector(e, lb, xs)
    case Strings(_, ss) => Strings(lb, ss)
    case Nested(_, vs) => Nested(lb, RebasedAll(vs, lb))
    case _ => v
  }

  function RebasedAll(vs: seq<Variant>, lb: int := 1): (r: seq<Variant>)
    ensures |r| == |vs|
  {
    if vs == [] then [] else RebasedAll(vs[..|vs| - 1], lb) + [Rebased(vs[|vs| - 1], lb)]
  }
}
