/** The readers of bcap_common.c. They are handed only the bytes below the terminator. */
module Decoder {
  import opened Wire
  import opened Variants
  import opened Encoder

  datatype Parsed<+T> = Ok(value: T, next: nat) | Fail(status: Status)

  // ----- what the readers are to return -----

  function Load(src: seq<byte>, off: nat, size: nat): nat
    requires off + size <= |src|
  {
    UnLE(src[off..off + size])
  }

  /** Where size bytes at off do not fit: the error, or a read outside if they slip through the test. */
  function Refused(off: nat, size: nat, len: nat, error: Status := E_INVALIDPACKET): Status
  {
    if Slips(off, size, len) then OVERREAD else error
  }

  /** n values of the given size from off on, stored where there is room for slots of them. */
  function DecNums(src: seq<byte>, n: nat, size: nat, off: nat, slots: nat): (r: Parsed<seq<nat>>)
    ensures r.Ok? ==> |r.value| == n <= slots && off <= r.next && (n > 0 ==> r.next <= |src|)
  {
    if n == 0 then Ok([], off)
    else
      match DecNums(src, n - 1, size, off, slots)
      case Fail(st) => Fail(st)
      case Ok(xs, at) =>
        if at + size > |src| then Fail(Refused(at, size, |src|))
        else if n > slots then Fail(OVERWRITE)
        else Ok(xs + [Load(src, at, size)], at + size)
  }

  /** What a C string holds: the units before the first NUL. */
  function Terminated(u: seq<nat>): (r: seq<nat>)
    ensures |r| <= |u| && r == u[..|r|]
    ensures forall i :: 0 <= i < |r| ==> r[i] != 0
    ensures |r| < |u| ==> u[|r|] == 0
  {
    if u == [] || u[0] == 0 then [] else [u[0]] + Terminated(u[1..])
  }

  /** A string; room tells that there is a place for its pointer. */
  function DecBStr(src: seq<byte>, off: nat, room: bool := true): (r: Parsed<seq<nat>>)
    ensures r.Ok? ==> off + 4 <= r.next <= |src| && |r.value| <= MAX_BSTR && room
  {
    if off + 4 > |src| then Fail(Refused(off, 4, |src|))
    else if !room then Fail(OVERWRITE)
    else
      var n := Load(src, off, 4) / 2;
      match DecNums(src, n, 2, off + 4, UnitSlots(n))
      case Fail(st) => Fail(st)
      case Ok(u, next) => Ok(Terminated(u), next)
  }

  function DecBStrs(src: seq<byte>, n: nat, off: nat, slots: nat): (r: Parsed<seq<seq<nat>>>)
    ensures r.Ok? ==> |r.value| == n <= slots && off + 4 * n <= r.next && (n > 0 ==> r.next <= |src|)
  {
    if n == 0 then Ok([], off)
    else
      match DecBStrs(src, n - 1, off, slots)
      case Fail(st) => Fail(st)
      case Ok(us, at) =>
        match DecBStr(src, at, n <= slots)
        case Fail(st) => Fail(st)
        case Ok(u, next) => Ok(us + [u], next)
  }

  /** bcap_bytary2vnt: one value of a given type and count. */
  function DecVariant(src: seq<byte>, vt: nat, n: nat, off: nat): (r: Parsed<Variant>)
    requires off <= |src|
    ensures r.Ok? ==> off <= r.next <= |src| && TypeOf(r.value) == vt && !r.value.Missing?
    ensures r.Ok? && IsArray(vt) ==> Count(r.value) == n
    decreases 0, |src| - off, 3, 0
  {
    if IsArray(vt) then
      var e := ElemType(vt);
      if e == VT_BSTR then
        match DecBStrs(src, n, off, Slots(n, BSTR_SIZE))
        case Fail(st) => Fail(st)
        case Ok(ss, next) => Ok(Strings(1, ss), next)
      else if e == VT_VARIANT then
        match DecElements(src, n, off, false, Slots(n, VARIANT_SIZE))
        case Fail(st) => Fail(st)
        case Ok(vs, next) => Ok(Nested(1, vs), next)
      else if ElemWidth(e) == 0 && n > 0 then Fail(E_OUTOFMEMORY)
      else if e == VT_UI1 && off + n > |src| then Fail(Refused(off, n, |src|, E_INVALIDARG))
      else
        match DecNums(src, n, ElemWidth(e), off, Slots(n, ElemWidth(e)))
        case Fail(st) => Fail(st)
        case Ok(xs, next) => Ok(Vector(e, 1, xs), next)
    else if vt == VT_BSTR then
      match DecBStr(src, off)
      case Fail(st) => Fail(st)
      case Ok(u, next) => Ok(Str(u), next)
    else if off + Width(vt) > |src| then Fail(Refused(off, Width(vt), |src|))
    else Ok(Scalar(vt, Load(src, off, Width(vt))), off + Width(vt))
  }

  /** Type, count and value; the start may lie past the end, where the first test fails. */
  function DecElement(src: seq<byte>, start: nat): (r: Parsed<Variant>)
    ensures r.Ok? ==> start + 6 <= r.next <= |src| && !r.value.Missing?
    decreases 0, if start <= |src| then |src| - start else 0, 0, 0
  {
    if start + 2 > |src| then Fail(Refused(start, 2, |src|))
    else if start + 6 > |src| then Fail(Refused(start + 2, 4, |src|))
    else DecVariant(src, Load(src, start, 2), Load(src, start + 2, 4), start + 6)
  }

  /**
   * One round of the loop in bcap_bytary2vntary. A top-level length field is skipped unread and untested, which
   * within four bytes of 2^32 leads back to the start of the frame.
   */
  function DecEntry(src: seq<byte>, off: nat, top: bool): (r: Parsed<Variant>)
    requires off <= |src|
    ensures r.Ok? ==> r.next <= |src| && !r.value.Missing?
    ensures r.Ok? && (top ==> off + 4 < U32) ==> off + (if top then 10 else 6) <= r.next
    decreases if top then 1 else 0, if top then 0 else |src| - off, 1, 0
  {
    DecElement(src, if top then Add32(off, 4) else off)
  }

  /** bcap_bytary2vntary, after n rounds of its loop; each first clears its slot. */
  function DecElements(src: seq<byte>, n: nat, off: nat, top: bool, slots: nat): (r: Parsed<seq<Variant>>)
    requires off <= |src|
    ensures r.Ok? ==> |r.value| == n <= slots && r.next <= |src|
    ensures r.Ok? && (top ==> |src| + 4 < U32) ==> off + n * (if top then 10 else 6) <= r.next
    decreases if top then 1 else 0, if top then n else |src| - off, 2, n
  {
    if n == 0 then Ok([], off)
    else
      match DecElements(src, n - 1, off, top, slots)
      case Fail(st) => Fail(st)
      case Ok(vs, at) =>
        if n > slots then Fail(OVERWRITE)
        else
          match DecEntry(src, at, top)
          case Fail(st) => Fail(st)
          case Ok(v, next) => Ok(vs + [v], next)
  }

  /** What the caller hands in: room for so many arguments, or AUTO with no array to have one made. */
  const AUTO := 0xFFFF

  /** bcap_bytary2packet; room is the argument count of the caller's packet, own tells that it has an array. */
  function DecPacket(src: seq<byte>, room: nat, own: bool): (r: Parsed<Packet>)
  {
    if |src| < SIZE_MIN || Load(src, 1, 4) != |src|
       || src[0] != HEADER || src[|src| - 1] != TERMINATOR then Fail(E_INVALIDPACKET)
    else
      var argc := Load(src, 13, 2);
      if room == AUTO && own then Fail(E_INVALIDARG)
      else if room != AUTO && room > 0 && !own then Fail(E_INVALIDARG)
      else if room != AUTO && argc > room then Fail(E_INVALIDPACKET)
      else
        match DecElements(src[..|src| - 1], argc, 15, true, argc)
        case Fail(st) => Fail(st)
        case Ok(vs, next) =>
          LoadBound(src[9..13]);
          PowValues();
          Ok(Packet(Load(src, 5, 2), Load(src, 7, 2), FromU32(Load(src, 9, 4)), vs), next)
  }

  // ----- the widths of the fixed-size types, switch by switch -----

  /** bcap_bytary2vnt, of an array element */
  function ReadElementWidth(vt: nat): (w: nat)
  {
    if vt == VT_UI1 then 1
    else if vt == VT_I2 || vt == VT_UI2 || vt == VT_BOOL then 2
    else if vt == VT_I4 || vt == VT_UI4 || vt == VT_R4 then 4
    else if vt == VT_I8 || vt == VT_UI8 || vt == VT_R8 || vt == VT_CY then 8
    else if vt == VT_DATE then 8
    else 0
  }

  /** bcap_bytary2vnt, of a scalar */
  function ReadScalarWidth(vt: nat): (w: nat)
  {
    if vt == VT_UI1 then 1
    else if vt == VT_I2 then 2 else if vt == VT_UI2 then 2 else if vt == VT_BOOL then 2
    else if vt == VT_I4 then 4 else if vt == VT_UI4 then 4 else if vt == VT_R4 then 4 else if vt == VT_ERROR then 4
    else if vt == VT_I8 then 8 else if vt == VT_UI8 then 8 else if vt == VT_R8 then 8 else if vt == VT_CY then 8
    else if vt == VT_DATE then 8
    else 0
  }

  /** What is read is what is written, and the arrays created are made for it. */
  lemma ReadsAsWritten(vt: nat)
    ensures ReadElementWidth(vt) == WrittenElement(vt) && ReadScalarWidth(vt) == WrittenScalar(vt)
    ensures ReadElementWidth(vt) == ElemWidth(vt) && ReadScalarWidth(vt) == Width(vt)
    ensures CreatedWidth(vt) == if vt == VT_BSTR then BSTR_SIZE else if vt == VT_VARIANT then VARIANT_SIZE
                                else ReadElementWidth(vt)
  {
    SizesAreWritten(vt);
  }

  // ----- the readers -----

  /** memcpy_le into an integer */
  method GetLE(src: array<byte>, off: nat, size: nat) returns (n: nat)
    requires off + size <= src.Length
    ensures n == Load(src[..], off, size)
  {
    n := 0;
    var k := size;
    while k > 0
      invariant 0 <= k <= size
      invariant n == UnLE(src[off + k..off + size])
    {
      k := k - 1;
      assert src[off + k..off + size] == [src[off + k]] + src[off + k + 1..off + size];
      n := src[off + k] + 256 * n;
    }
    assert src[..][off..off + size] == src[off..off + size];
  }

  /** A loop that stops at its first failing round returns what the full count returns. */
  lemma {:induction false} DecNumsFails(src: seq<byte>, n: nat, i: nat, size: nat, off: nat, slots: nat)
    requires i <= n && DecNums(src, i, size, off, slots).Fail?
    ensures DecNums(src, n, size, off, slots) == DecNums(src, i, size, off, slots)
  {
    if i < n {
      DecNumsFails(src, n - 1, i, size, off, slots);
    }
  }

  method ReadNums(src: array<byte>, len: nat, n: nat, size: nat, off: nat, slots: nat) returns (r: Parsed<seq<nat>>)
    requires len <= src.Length
    ensures r == DecNums(src[..len], n, size, off, slots)
  {
    var xs: seq<nat>, next: nat := [], off;
    for i := 0 to n
      invariant DecNums(src[..len], i, size, off, slots) == Ok(xs, next)
    {
      if Add32(next, size) > len || next + size > len {
        DecNumsFails(src[..len], n, i + 1, size, off, slots);
        return Fail(if Add32(next, size) > len then E_INVALIDPACKET else OVERREAD);
      }
      if i >= slots {
        DecNumsFails(src[..len], n, i + 1, size, off, slots);
        return Fail(OVERWRITE);
      }
      var x := GetLE(src, next, size);
      assert src[..][next..next + size] == src[..len][next..next + size];
      xs, next := xs + [x], next + size;
    }
    r := Ok(xs, next);
  }

  lemma {:induction false} DecBStrsFails(src: seq<byte>, n: nat, i: nat, off: nat, slots: nat)
    requires i <= n && DecBStrs(src, i, off, slots).Fail?
    ensures DecBStrs(src, n, off, slots) == DecBStrs(src, i, off, slots)
  {
    if i < n {
      DecBStrsFails(src, n - 1, i, off, slots);
    }
  }

  method ReadBStr(src: array<byte>, len: nat, off: nat, room: bool) returns (r: Parsed<seq<nat>>)
    requires len <= src.Length
    ensures r == DecBStr(src[..len], off, room)
  {
    if Add32(off, 4) > len { return Fail(E_INVALIDPACKET); }
    if off + 4 > len { return Fail(OVERREAD); }
    if !room {
      return Fail(OVERWRITE);
    }
    var bytes := GetLE(src, off, 4);
    assert src[..][off..off + 4] == src[..len][off..off + 4];
    r := ReadNums(src, len, bytes / 2, 2, off + 4, UnitSlots(bytes / 2));
    if r.Ok? {
      r := Ok(Terminated(r.value), r.next);
    }
  }

  method ReadBStrs(src: array<byte>, len: nat, n: nat, off: nat, slots: nat) returns (r: Parsed<seq<seq<nat>>>)
    requires len <= src.Length
    ensures r == DecBStrs(src[..len], n, off, slots)
  {
    var ss, next := [], off;
    for i := 0 to n
      invariant DecBStrs(src[..len], i, off, slots) == Ok(ss, next)
    {
      var one := ReadBStr(src, len, next, i < slots);
      if one.Fail? {
        DecBStrsFails(src[..len], n, i + 1, off, slots);
        return Fail(one.status);
      }
      ss, next := ss + [one.value], one.next;
    }
    r := Ok(ss, next);
  }

  method ReadVariant(src: array<byte>, len: nat, vt: nat, n: nat, off: nat) returns (r: Parsed<Variant>)
    requires off <= len <= src.Length
    ensures r == DecVariant(src[..len], vt, n, off)
    decreases 0, len - off, 3, 0
  {
    if IsArray(vt) {
      var e := ElemType(vt);
      ReadsAsWritten(e);
      if e == VT_BSTR {
        var ss := ReadBStrs(src, len, n, off, Slots(n, CreatedWidth(e)));
        r := if ss.Ok? then Ok(Strings(1, ss.value), ss.next) else Fail(ss.status);
      } else if e == VT_VARIANT {
        var vs := ReadElements(src, len, n, off, false, Slots(n, CreatedWidth(e)));
        r := if vs.Ok? then Ok(Nested(1, vs.value), vs.next) else Fail(vs.status);
      } else if CreatedWidth(e) == 0 && n > 0 {
        r := Fail(E_OUTOFMEMORY);
      } else if e == VT_UI1 && Add32(off, n) > len {
        r := Fail(E_INVALIDARG);
      } else if e == VT_UI1 && off + n > len {
        r := Fail(OVERREAD);
      } else {
        var xs := ReadNums(src, len, n, ReadElementWidth(e), off, Slots(n, CreatedWidth(e)));
        r := if xs.Ok? then Ok(Vector(e, 1, xs.value), xs.next) else Fail(xs.status);
      }
    } else if vt == VT_BSTR {
      var u := ReadBStr(src, len, off, true);
      r := if u.Ok? then Ok(Str(u.value), u.next) else Fail(u.status);
    } else {
      r := ReadScalar(src, len, vt, off);
    }
  }

  method ReadScalar(src: array<byte>, len: nat, vt: nat, off: nat) returns (r: Parsed<Variant>)
    requires off <= len <= src.Length && !IsArray(vt) && vt != VT_BSTR
    ensures forall n :: r == DecVariant(src[..len], vt, n, off)
  {
    ReadsAsWritten(vt);
    var width := ReadScalarWidth(vt);
    if Add32(off, width) > len { return Fail(E_INVALIDPACKET); }
    if off + width > len { return Fail(OVERREAD); }
    var bits := GetLE(src, off, width);
    assert src[..][off..off + width] == src[..len][off..off + width];
    r := Ok(Scalar(vt, bits), off + width);
  }

  lemma {:induction false} DecElementsFails(src: seq<byte>, n: nat, i: nat, off: nat, top: bool, slots: nat)
    requires i <= n && off <= |src| && DecElements(src, i, off, top, slots).Fail?
    ensures DecElements(src, n, off, top, slots) == DecElements(src, i, off, top, slots)
    decreases n
  {
    if i < n {
      DecElementsFails(src, n - 1, i, off, top, slots);
    }
  }

  method ReadElements(src: array<byte>, len: nat, n: nat, off: nat, top: bool, slots: nat)
    returns (r: Parsed<seq<Variant>>)
    requires off <= len <= src.Length
    ensures r == DecElements(src[..len], n, off, top, slots)
    decreases if top then 1 else 0, len - off, 2, 0
  {
    var vs: seq<Variant>, next: nat := [], off;
    for i := 0 to n
      invariant next <= len && (!top ==> off <= next)
      invariant DecElements(src[..len], i, off, top, slots) == Ok(vs, next)
    {
      if i >= slots {
        DecElementsFails(src[..len], n, i + 1, off, top, slots);
        return Fail(OVERWRITE);
      }
      var one := ReadEntry(src, len, next, top);
      if one.Fail? {
        DecElementsFails(src[..len], n, i + 1, off, top, slots);
        return Fail(one.status);
      }
      vs, next := vs + [one.value], one.next;
    }
    r := Ok(vs, next);
  }

  /** The body of that loop. */
  method ReadEntry(src: array<byte>, len: nat, off: nat, top: bool) returns (r: Parsed<Variant>)
    requires off <= len <= src.Length
    ensures r == DecEntry(src[..len], off, top)
    decreases if top then 1 else 0, if top then 0 else len - off, 1, 0
  {
    r := ReadElement(src, len, if top then Add32(off, 4) else off);
  }

  method ReadElement(src: array<byte>, len: nat, start: nat) returns (r: Parsed<Variant>)
    requires len <= src.Length
    ensures r == DecElement(src[..len], start)
    decreases 0, if start <= len then len - start else 0, 0, 0
  {
    if Add32(start, 2) > len { return Fail(E_INVALIDPACKET); }
    if start + 2 > len { return Fail(OVERREAD); }
    var vt := GetLE(src, start, 2);
    assert src[..][start..start + 2] == src[..len][start..start + 2];
    if Add32(start + 2, 4) > len { return Fail(E_INVALIDPACKET); }
    if start + 6 > len { return Fail(OVERREAD); }
    var cnt := GetLE(src, start + 2, 4);
    assert src[..][start + 2..start + 6] == src[..len][start + 2..start + 6];
    r := ReadVariant(src, len, vt, cnt, start + 6);
  }

  method ReadPacket(src: array<byte>, room: nat, own: bool) returns (r: Parsed<Packet>)
    ensures r == DecPacket(src[..], room, own)
  {
    var len := src.Length;
    if len < SIZE_MIN {
      return Fail(E_INVALIDPACKET);
    }
    var declared := GetLE(src, 1, 4);
    if declared != len || src[0] != HEADER || src[len - 1] != TERMINATOR {
      return Fail(E_INVALIDPACKET);
    }
    var serial := GetLE(src, 5, 2);
    var reserv := GetLE(src, 7, 2);
    var id := GetLE(src, 9, 4);
    var argc := GetLE(src, 13, 2);
    if (room == AUTO && own) || (room != AUTO && room > 0 && !own) {
      return Fail(E_INVALIDARG);
    }
    if room != AUTO && argc > room {
      return Fail(E_INVALIDPACKET);
    }
    var vs := ReadElements(src, len - 1, argc, 15, true, argc);
    assert src[..len - 1] == src[..][..len - 1];
    if vs.Fail? {
      return Fail(vs.status);
    }
    LoadBound(src[..][9..13]);
    PowValues();
    r := Ok(Packet(serial, reserv, FromU32(id), vs.value), vs.next);
  }
}
