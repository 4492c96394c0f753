/** When the b-CAP readers leave the frame or what they allocated: the 32-bit sums and products of bcap_common.c. */
module Bounds {
  import opened Wire
  import opened Variants
  import opened Encoder
  import opened Decoder

  predicate Fault(st: Status)
  {
    st == OVERREAD || st == OVERWRITE
  }

  // ----- fixed-size values -----

  lemma {:induction false} NumsNext(src: seq<byte>, n: nat, size: nat, off: nat, slots: nat)
    requires DecNums(src, n, size, off, slots).Ok?
    ensures DecNums(src, n, size, off, slots).next == off + n * size
  {
    if n > 0 {
      NumsNext(src, n - 1, size, off, slots);
      assert n * size == (n - 1) * size + size;
    }
  }

  /** More values than slots, and bytes for at least one of those too many. */
  predicate Overfills(src: seq<byte>, n: nat, size: nat, off: nat, slots: nat)
  {
    slots < n && off + (slots + 1) * size <= |src|
  }

  lemma {:induction false} NumsOverfill(src: seq<byte>, n: nat, size: nat, off: nat, slots: nat)
    ensures DecNums(src, n, size, off, slots) == Fail(OVERWRITE) <==> Overfills(src, n, size, off, slots)
    ensures DecNums(src, n, size, off, slots).Fail? && !Overfills(src, n, size, off, slots) ==> off + n * size > |src|
  {
    if n > 0 {
      NumsOverfill(src, n - 1, size, off, slots);
      assert n * size == (n - 1) * size + size;
      if DecNums(src, n - 1, size, off, slots).Ok? {
        NumsNext(src, n - 1, size, off, slots);
      }
    }
  }

  /** The last of n fields is the first that does not fit, or an earlier one is. */
  lemma {:induction false} LastSlips(k: nat, size: nat, off: nat, len: nat, all: nat)
    requires off <= len && all == k * size
    ensures FieldSlips(k + 1, size, off, len)
      <==> FieldSlips(k, size, off, len) || (off + all <= len && Slips(off + all, size, len))
  {
    if k > 0 {
      OneStride(k - 1, size);
      if off + size <= len {
        var rest := (k - 1) * size;
        LastSlips(k - 1, size, off + size, len, rest);
      }
    }
  }

  /** Fields are read outside when the first that does not fit slips, unless storing them went wrong before. */
  lemma {:induction false} NumsSlip(src: seq<byte>, n: nat, size: nat, off: nat, slots: nat)
    requires off <= |src|
    ensures DecNums(src, n, size, off, slots) == Fail(OVERREAD)
      <==> FieldSlips(n, size, off, |src|) && !Overfills(src, n, size, off, slots)
  {
    if n > 0 {
      var at := off + (n - 1) * size;
      assert n * size == (n - 1) * size + size;
      NumsSlip(src, n - 1, size, off, slots);
      NumsOverfill(src, n - 1, size, off, slots);
      NumsOverfill(src, n, size, off, slots);
      LastSlips(n - 1, size, off, |src|, (n - 1) * size);
      if DecNums(src, n - 1, size, off, slots).Ok? {
        NumsNext(src, n - 1, size, off, slots);
        if at + size <= |src| {
          FittingFields(n, size, off, |src|);
        } else {
          FittingFields(n - 1, size, off, |src|);
        }
      }
    }
  }

  // ----- strings -----

  /** A string longer than its 16-bit allocation takes, with bytes for at least one unit too many. */
  predicate StringLeads(src: seq<byte>, off: nat)
  {
    off + 4 <= |src| &&
    var n := Load(src, off, 4) / 2;
    n > MAX_BSTR && off + 4 + 2 * (UnitSlots(n) + 1) <= |src|
  }

  /** Its length or one of its units slips. */
  predicate StringSlips(src: seq<byte>, off: nat, room: bool)
  {
    Slips(off, 4, |src|)
    || (off + 4 <= |src| && room && !StringLeads(src, off) && FieldSlips(Load(src, off, 4) / 2, 2, off + 4, |src|))
  }

  predicate StringFaults(fault: Status, src: seq<byte>, off: nat, room: bool)
  {
    if fault == OVERREAD then StringSlips(src, off, room) else off + 4 <= |src| && (!room || StringLeads(src, off))
  }

  lemma StringOutcome(fault: Status, src: seq<byte>, off: nat, room: bool)
    requires Fault(fault)
    ensures DecBStr(src, off, room) == Fail(fault) <==> StringFaults(fault, src, off, room)
  {
    if off + 4 <= |src| {
      var n := Load(src, off, 4) / 2;
      NumsOverfill(src, n, 2, off + 4, UnitSlots(n));
      NumsSlip(src, n, 2, off + 4, UnitSlots(n));
    }
  }

  /** One of the first n strings runs into the fault, if only because it has no place for its pointer. */
  predicate StringsLead(fault: Status, src: seq<byte>, n: nat, off: nat, slots: nat)
  {
    n > 0 &&
    (StringsLead(fault, src, n - 1, off, slots) ||
     (DecBStrs(src, n - 1, off, slots).Ok?
      && StringFaults(fault, src, DecBStrs(src, n - 1, off, slots).next, n <= slots)))
  }

  lemma {:induction false} StringsOutcome(fault: Status, src: seq<byte>, n: nat, off: nat, slots: nat)
    requires Fault(fault)
    ensures DecBStrs(src, n, off, slots) == Fail(fault) <==> StringsLead(fault, src, n, off, slots)
  {
    if n > 0 {
      StringsOutcome(fault, src, n - 1, off, slots);
      if DecBStrs(src, n - 1, off, slots).Ok? {
        StringOutcome(fault, src, DecBStrs(src, n - 1, off, slots).next, n <= slots);
      }
    }
  }

  // ----- the headers reached -----

  /** The byte array whose payload of n bytes begins at off has a 32-bit end before its beginning. */
  predicate Wraps(vt: nat, n: nat, off: nat)
  {
    vt == VT_UI1 + VT_ARRAY && off + n >= U32
  }

  /** The allocation of an array of fixed-size values is cut by 2^32, and the frame has bytes for more than fit it. */
  predicate CutShort(src: seq<byte>, vt: nat, n: nat, off: nat)
    requires IsArray(vt)
  {
    var w := ElemWidth(ElemType(vt));
    w > 1 && n * w >= U32 && Overfills(src, n, w, off, Slots(n, w))
  }

  /** An array of fixed-size values: an element slips, or is stored outside. */
  predicate VectorFaults(fault: Status, src: seq<byte>, vt: nat, n: nat, off: nat)
    requires IsArray(vt)
  {
    var w := ElemWidth(ElemType(vt));
    if fault == OVERREAD then w > 0 && FieldSlips(n, w, off, |src|) && !CutShort(src, vt, n, off)
    else CutShort(src, vt, n, off)
  }

  /** Reading the value announced by this header runs into the fault, here or in a header inside it. */
  predicate Leads(fault: Status, src: seq<byte>, vt: nat, n: nat, off: nat)
    requires off <= |src|
    decreases 0, |src| - off, 3, 0
  {
    if vt == VT_VARIANT + VT_ARRAY then ElementsLead(fault, src, n, off, false, Slots(n, VARIANT_SIZE))
    else if vt == VT_UI1 + VT_ARRAY then fault == OVERREAD && Wraps(vt, n, off)
    else if vt == VT_BSTR then StringFaults(fault, src, off, true)
    else if vt == VT_BSTR + VT_ARRAY then StringsLead(fault, src, n, off, Slots(n, BSTR_SIZE))
    else if IsArray(vt) then VectorFaults(fault, src, vt, n, off)
    else fault == OVERREAD && Slips(off, Width(vt), |src|)
  }

  /** The type or the count slips, or what they announce leads there. */
  predicate ElementLeads(fault: Status, src: seq<byte>, start: nat)
    decreases 0, if start <= |src| then |src| - start else 0, 0, 0
  {
    || (fault == OVERREAD && (Slips(start, 2, |src|) || (start + 2 <= |src| && Slips(start + 2, 4, |src|))))
    || (start + 6 <= |src| && Leads(fault, src, Load(src, start, 2), Load(src, start + 2, 4), start + 6))
  }

  predicate EntryLeads(fault: Status, src: seq<byte>, off: nat, top: bool)
    requires off <= |src|
    decreases if top then 1 else 0, if top then 0 else |src| - off, 1, 0
  {
    ElementLeads(fault, src, if top then Add32(off, 4) else off)
  }

  /** One of the first n elements does, or has no slot. */
  predicate ElementsLead(fault: Status, src: seq<byte>, n: nat, off: nat, top: bool, slots: nat)
    requires off <= |src|
    decreases if top then 1 else 0, if top then n else |src| - off, 2, n
  {
    n > 0 &&
    (ElementsLead(fault, src, n - 1, off, top, slots) ||
     (DecElements(src, n - 1, off, top, slots).Ok? &&
      if n > slots then fault == OVERWRITE
      else EntryLeads(fault, src, DecElements(src, n - 1, off, top, slots).next, top)))
  }

  lemma BytesOutcome(fault: Status, src: seq<byte>, n: nat, off: nat)
    requires Fault(fault) && off <= |src| < U32 && n < U32
    ensures DecVariant(src, VT_UI1 + VT_ARRAY, n, off) == Fail(fault) <==> fault == OVERREAD && off + n >= U32
  {
    if off + n <= |src| {
      NumsOverfill(src, n, 1, off, n);
      NumsSlip(src, n, 1, off, n);
      FittingFields(n, 1, off, |src|);
    } else if off + n >= U32 {
      assert Add32(off, n) == off + n - U32;
    }
  }

  lemma VectorOutcome(fault: Status, src: seq<byte>, vt: nat, n: nat, off: nat)
    requires Fault(fault) && off <= |src| < U32 && IsArray(vt)
    requires vt != VT_VARIANT + VT_ARRAY && vt != VT_BSTR + VT_ARRAY && vt != VT_UI1 + VT_ARRAY
    ensures DecVariant(src, vt, n, off) == Fail(fault) <==> VectorFaults(fault, src, vt, n, off)
  {
    var w := ElemWidth(ElemType(vt));
    NumsOverfill(src, n, w, off, Slots(n, w));
    NumsSlip(src, n, w, off, Slots(n, w));
    if w > 1 {
      SlotsBytes(n, w);
    }
  }

  /** Reading a value runs into the fault exactly when a header that leads there is reached. */
  lemma {:induction false} VariantOutcome(fault: Status, src: seq<byte>, vt: nat, n: nat, off: nat)
    requires Fault(fault) && off <= |src| < U32 && n < U32
    ensures DecVariant(src, vt, n, off) == Fail(fault) <==> Leads(fault, src, vt, n, off)
    decreases 0, |src| - off, 3, 0
  {
    if vt == VT_VARIANT + VT_ARRAY {
      ElementsOutcome(fault, src, n, off, false, Slots(n, VARIANT_SIZE));
    } else if vt == VT_UI1 + VT_ARRAY {
      BytesOutcome(fault, src, n, off);
    } else if vt == VT_BSTR + VT_ARRAY {
      StringsOutcome(fault, src, n, off, Slots(n, BSTR_SIZE));
    } else if IsArray(vt) {
      VectorOutcome(fault, src, vt, n, off);
    } else if vt == VT_BSTR {
      StringOutcome(fault, src, off, true);
    }
  }

  lemma CountFits(src: seq<byte>, off: nat)
    requires off + 4 <= |src|
    ensures Load(src, off, 4) < U32
  {
    PowValues();
    LoadBound(src[off..off + 4]);
  }

  lemma {:induction false} ElementOutcome(fault: Status, src: seq<byte>, start: nat)
    requires Fault(fault) && |src| < U32
    ensures DecElement(src, start) == Fail(fault) <==> ElementLeads(fault, src, start)
    decreases 0, if start <= |src| then |src| - start else 0, 0, 0
  {
    if start + 6 <= |src| {
      CountFits(src, start + 2);
      VariantOutcome(fault, src, Load(src, start, 2), Load(src, start + 2, 4), start + 6);
    }
  }

  lemma {:induction false} ElementsOutcome(fault: Status, src: seq<byte>, n: nat, off: nat, top: bool, slots: nat)
    requires Fault(fault) && off <= |src| < U32
    ensures DecElements(src, n, off, top, slots) == Fail(fault) <==> ElementsLead(fault, src, n, off, top, slots)
    decreases if top then 1 else 0, if top then n else |src| - off, 2, n
  {
    if n > 0 {
      ElementsOutcome(fault, src, n - 1, off, top, slots);
      if DecElements(src, n - 1, off, top, slots).Ok? && n <= slots {
        var at := DecElements(src, n - 1, off, top, slots).next;
        ElementOutcome(fault, src, if top then Add32(at, 4) else at);
      }
    }
  }

  /** The frame's own fields pass the tests before the first argument is read. */
  predicate HeadPasses(src: seq<byte>, room: nat, own: bool)
  {
    && |src| >= SIZE_MIN && Load(src, 1, 4) == |src| && src[0] == HEADER && src[|src| - 1] == TERMINATOR
    && (if room == AUTO then !own else (room == 0 || own) && Load(src, 13, 2) <= room)
  }

  /**
   * Every read stays below the terminator, and every store inside its allocation, exactly when nothing that
   * leads outside is reached: for reads, a byte array or a field that ends at 2^32 or later.
   */
  lemma FaultExactly(fault: Status, src: seq<byte>, room: nat, own: bool)
    requires Fault(fault)
    ensures DecPacket(src, room, own) == Fail(fault)
      <==> HeadPasses(src, room, own)
           && ElementsLead(fault, src[..|src| - 1], Load(src, 13, 2), 15, true, Load(src, 13, 2))
  {
    if HeadPasses(src, room, own) {
      CountFits(src, 1);
      ElementsOutcome(fault, src[..|src| - 1], Load(src, 13, 2), 15, true, Load(src, 13, 2));
    }
  }

  // ----- tests on the bytes alone that keep every access inside -----

  /** No six bytes read as the header of a byte array that passes 2^32. */
  predicate NoWrapping(src: seq<byte>)
  {
    forall k {:trigger Load(src, k, 2)} ::
      0 <= k && k + 6 <= |src| && Load(src, k, 2) == VT_UI1 + VT_ARRAY ==> k + 6 + Load(src, k + 2, 4) < U32
  }

  /** In a short enough frame no field slips. */
  lemma {:induction false} NoFieldSlips(n: nat, size: nat, off: nat, len: nat)
    requires size <= 8 && off + size < U32 && len + 9 <= U32
    ensures !Slips(off, size, len) && !FieldSlips(n, size, off, len)
    decreases n
  {
    assert Add32(off, size) == off + size;
    if n > 0 && off + size <= len {
      NoFieldSlips(n - 1, size, off + size, len);
    }
  }

  lemma {:induction false} StringsStay(src: seq<byte>, n: nat, off: nat, slots: nat)
    requires off <= |src| && |src| + 9 <= U32
    ensures !StringsLead(OVERREAD, src, n, off, slots)
  {
    if n > 0 {
      StringsStay(src, n - 1, off, slots);
      if DecBStrs(src, n - 1, off, slots).Ok? {
        StringStays(src, DecBStrs(src, n - 1, off, slots).next, n <= slots);
      }
    }
  }

  lemma StringStays(src: seq<byte>, off: nat, room: bool)
    requires off <= |src| && |src| + 9 <= U32
    ensures !StringSlips(src, off, room)
  {
    NoFieldSlips(0, 4, off, |src|);
    if off + 4 <= |src| {
      NoFieldSlips(Load(src, off, 4) / 2, 2, off + 4, |src|);
    }
  }

  lemma {:induction false} ValueStays(src: seq<byte>, vt: nat, n: nat, off: nat)
    requires off <= |src| && |src| + 9 <= U32 && NoWrapping(src)
    requires vt == VT_UI1 + VT_ARRAY ==> off + n < U32
    ensures !Leads(OVERREAD, src, vt, n, off)
    decreases 0, |src| - off, 3, 0
  {
    if vt == VT_VARIANT + VT_ARRAY {
      ElementsStay(src, n, off, false, Slots(n, VARIANT_SIZE));
    } else if vt == VT_BSTR {
      StringStays(src, off, true);
    } else if vt == VT_BSTR + VT_ARRAY {
      StringsStay(src, n, off, Slots(n, BSTR_SIZE));
    } else if IsArray(vt) {
      NoFieldSlips(n, ElemWidth(ElemType(vt)), off, |src|);
    } else {
      NoFieldSlips(0, Width(vt), off, |src|);
    }
  }

  lemma {:induction false} ElementStays(src: seq<byte>, start: nat)
    requires start <= |src| + 4 && |src| + 9 <= U32 && NoWrapping(src)
    ensures !ElementLeads(OVERREAD, src, start)
    decreases 0, if start <= |src| then |src| - start else 0, 0, 0
  {
    NoFieldSlips(0, 2, start, |src|);
    if start + 2 <= |src| {
      NoFieldSlips(0, 4, start + 2, |src|);
    }
    if start + 6 <= |src| {
      ValueStays(src, Load(src, start, 2), Load(src, start + 2, 4), start + 6);
    }
  }

  lemma {:induction false} ElementsStay(src: seq<byte>, n: nat, off: nat, top: bool, slots: nat)
    requires off <= |src| && |src| + 9 <= U32 && NoWrapping(src)
    ensures !ElementsLead(OVERREAD, src, n, off, top, slots)
    decreases if top then 1 else 0, if top then n else |src| - off, 2, n
  {
    if n > 0 {
      ElementsStay(src, n - 1, off, top, slots);
      if DecElements(src, n - 1, off, top, slots).Ok? {
        var at := DecElements(src, n - 1, off, top, slots).next;
        ElementStays(src, if top then at + 4 else at);
      }
    }
  }

  /** A frame of at most 2^32 - 8 bytes that shows no such header is read within its bounds. */
  lemma ReadsStay(src: seq<byte>, room: nat, own: bool)
    requires |src| + 8 <= U32 && (src != [] ==> NoWrapping(src[..|src| - 1]))
    ensures DecPacket(src, room, own) != Fail(OVERREAD)
  {
    FaultExactly(OVERREAD, src, room, own);
    if HeadPasses(src, room, own) {
      ElementsStay(src[..|src| - 1], Load(src, 13, 2), 15, true, Load(src, 13, 2));
    }
  }

  /** No four bytes read as more than the length of the longest string. */
  predicate NoLong(src: seq<byte>)
  {
    forall k {:trigger Load(src, k, 4)} :: 0 <= k && k + 4 <= |src| ==> Load(src, k, 4) <= 2 * MAX_BSTR + 1
  }

  lemma {:induction false} StringsStore(src: seq<byte>, n: nat, off: nat, slots: nat)
    requires NoLong(src) && n <= slots
    ensures !StringsLead(OVERWRITE, src, n, off, slots)
  {
    if n > 0 {
      StringsStore(src, n - 1, off, slots);
    }
  }

  lemma {:induction false} ElementStores(src: seq<byte>, start: nat)
    requires NoLong(src)
    ensures !ElementLeads(OVERWRITE, src, start)
    decreases 0, if start <= |src| then |src| - start else 0, 0, 0
  {
    if start + 6 <= |src| {
      var n := Load(src, start + 2, 4);
      if Load(src, start, 2) == VT_VARIANT + VT_ARRAY {
        ElementsStore(src, n, start + 6, false, Slots(n, VARIANT_SIZE));
      } else if Load(src, start, 2) == VT_BSTR + VT_ARRAY {
        StringsStore(src, n, start + 6, Slots(n, BSTR_SIZE));
      }
    }
  }

  lemma {:induction false} ElementsStore(src: seq<byte>, n: nat, off: nat, top: bool, slots: nat)
    requires off <= |src| && NoLong(src) && n <= slots
    ensures !ElementsLead(OVERWRITE, src, n, off, top, slots)
    decreases if top then 1 else 0, if top then n else |src| - off, 2, n
  {
    if n > 0 {
      ElementsStore(src, n - 1, off, top, slots);
      if DecElements(src, n - 1, off, top, slots).Ok? {
        var at := DecElements(src, n - 1, off, top, slots).next;
        ElementStores(src, if top then Add32(at, 4) else at);
      }
    }
  }

  /** A frame that shows no such number is stored within its allocations. */
  lemma StoresStay(src: seq<byte>, room: nat, own: bool)
    requires src != [] ==> NoLong(src[..|src| - 1])
    ensures DecPacket(src, room, own) != Fail(OVERWRITE)
  {
    FaultExactly(OVERWRITE, src, room, own);
    if HeadPasses(src, room, own) {
      ElementsStore(src[..|src| - 1], Load(src, 13, 2), 15, true, Load(src, 13, 2));
    }
  }

  // ----- where the tests fail: one frame each -----

  /** A frame of one argument: its fixed fields, a length no one reads, type, count and payload. */
  function OneArgument(vt: nat, n: nat, payload: seq<byte>): (f: seq<byte>)
    ensures |f| == 26 + |payload|
  {
    [HEADER] + LE(26 + |payload|, 4) + LE(1, 2) + LE(0, 2) + LE(1, 4) + LE(1, 2) + LE(0, 4)
    + (LE(vt, 2) + LE(n, 4)) + payload + [TERMINATOR]
  }

  lemma FieldsOf(f: seq<byte>, a: seq<byte>, b: seq<byte>, n: nat, size: nat)
    requires f == a + LE(n, size) + b && n < Pow256(size)
    ensures Load(f, |a|, size) == n
  {
    assert f[|a|..|a| + size] == LE(n, size);
    LoadStored(n, size);
  }

  lemma OneArgumentFields(vt: nat, n: nat, payload: seq<byte>)
    requires vt < U16 && n < U32 && 26 + |payload| < U32
    ensures var f := OneArgument(vt, n, payload);
            HeadPasses(f, AUTO, false) && Load(f, 13, 2) == 1
            && Load(f[..|f| - 1], 19, 2) == vt && Load(f[..|f| - 1], 21, 4) == n
  {
    PowValues();
    var f := OneArgument(vt, n, payload);
    var t := f[..|f| - 1];
    var a, b, c := [HEADER], LE(26 + |payload|, 4), LE(1, 2) + LE(0, 2) + LE(1, 4);
    var d, e := LE(0, 4), LE(vt, 2) + LE(n, 4) + payload;
    FieldsOf(f, a, c + LE(1, 2) + d + e + [TERMINATOR], 26 + |payload|, 4);
    FieldsOf(f, a + b + c, d + e + [TERMINATOR], 1, 2);
    FieldsOf(t, a + b + c + LE(1, 2) + d, LE(n, 4) + payload, vt, 2);
    FieldsOf(t, a + b + c + LE(1, 2) + d + LE(vt, 2), payload, n, 4);
  }

  /** A byte array of 0xFFFFFFE7 bytes in a frame of 26: its end, 25 later, is 0 in 32 bits. */
  lemma WrappedCountReadsOutside()
    ensures DecPacket(OneArgument(VT_UI1 + VT_ARRAY, 0xFFFF_FFE7, []), AUTO, false) == Fail(OVERREAD)
  {
    OneArgumentFields(VT_UI1 + VT_ARRAY, 0xFFFF_FFE7, []);
    var f := OneArgument(VT_UI1 + VT_ARRAY, 0xFFFF_FFE7, []);
    FaultExactly(OVERREAD, f, AUTO, false);
    assert EntryLeads(OVERREAD, f[..|f| - 1], 15, true);
  }

  /** Without a byte array it takes a frame of almost 2^32 bytes: here an integer of eight begins 7 before that. */
  lemma VastFieldReadsOutside(payload: seq<byte>)
    requires |payload| == U32 - 27
    ensures DecPacket(OneArgument(VT_I8 + VT_ARRAY, 0x1FFF_FFFD, payload), AUTO, false) == Fail(OVERREAD)
  {
    var n := 0x1FFF_FFFD;
    OneArgumentFields(VT_I8 + VT_ARRAY, n, payload);
    var f := OneArgument(VT_I8 + VT_ARRAY, n, payload);
    FaultExactly(OVERREAD, f, AUTO, false);
    FieldSlipsAt(n, 8, 25, |f| - 1, n - 1, 8 * (n - 1));
    assert VectorFaults(OVERREAD, f[..|f| - 1], VT_I8 + VT_ARRAY, n, 25);
    assert EntryLeads(OVERREAD, f[..|f| - 1], 15, true);
  }

  /** 0x40000001 integers are given four bytes of memory; the second one in the frame is stored behind them. */
  lemma WrappedSizeStoresOutside(payload: seq<byte>)
    requires |payload| == 8
    ensures DecPacket(OneArgument(VT_I4 + VT_ARRAY, 0x4000_0001, payload), AUTO, false) == Fail(OVERWRITE)
  {
    OneArgumentFields(VT_I4 + VT_ARRAY, 0x4000_0001, payload);
    var f := OneArgument(VT_I4 + VT_ARRAY, 0x4000_0001, payload);
    FaultExactly(OVERWRITE, f, AUTO, false);
    assert CutShort(f[..|f| - 1], VT_I4 + VT_ARRAY, 0x4000_0001, 25);
    assert EntryLeads(OVERWRITE, f[..|f| - 1], 15, true);
  }
}
