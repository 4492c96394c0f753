/** VARIANT trees in memory: copying one shares nothing with it, clearing one frees exactly its blocks (dn_common.c). */
module VariantHeap {
  import opened Wire
  import opened Variants

  /** A VARIANT record: its type, and its bits or its pointer, 0 for NULL. */
  datatype Slot = Slot(vt: nat, val: nat)

  /** What malloc returned a pointer to: a BSTR, a SAFEARRAY, or a SAFEARRAY's data. */
  datatype Block =
    | Bstr(units: seq<nat>)
    | Safe(elemVt: nat, lbound: int, count: nat, data: nat)
    | Nums(nums: seq<nat>)
    | Pointers(ptrs: seq<nat>)
    | Slots(slots: seq<Slot>)

  type Cells = map<nat, Block>

  const EMPTY := Slot(VT_EMPTY, 0)

  predicate Holds(h: Cells, a: nat, b: Block)
  {
    a != 0 && a in h && h[a] == b
  }

  /** A BSTR pointer stands for the string; NULL for the empty one. */
  predicate IsString(h: Cells, p: nat, u: seq<nat>)
  {
    if p == 0 then u == [] else Holds(h, p, Bstr(u))
  }

  function One(p: nat): set<nat>
  {
    if p == 0 then {} else {p}
  }

  /** The data block of the array at a. */
  function DataOf(h: Cells, a: nat): nat
  {
    if a in h && h[a].Safe? then h[a].data else 0
  }

  function PointersOf(h: Cells, a: nat): seq<nat>
  {
    var d := DataOf(h, a);
    if d != 0 && d in h && h[d].Pointers? then h[d].ptrs else []
  }

  function SlotsOf(h: Cells, a: nat): seq<Slot>
  {
    var d := DataOf(h, a);
    if d != 0 && d in h && h[d].Slots? then h[d].slots else []
  }

  function StringBlocks(ps: seq<nat>): set<nat>
  {
    if ps == [] then {} else StringBlocks(ps[..|ps| - 1]) + One(ps[|ps| - 1])
  }

  /** The blocks a slot that stands for v owns. */
  function Owned(h: Cells, s: Slot, v: Variant): set<nat>
    decreases v
  {
    match v
    case Scalar(_, _) => {}
    case Str(_) => One(s.val)
    case Missing(_) => {}
    case Vector(_, _, _) => One(s.val) + One(DataOf(h, s.val))
    case Strings(_, _) => One(s.val) + One(DataOf(h, s.val)) + StringBlocks(PointersOf(h, s.val))
    case Nested(_, vs) => One(s.val) + One(DataOf(h, s.val)) + OwnedAll(h, SlotsOf(h, s.val), vs)
  }

  function OwnedAll(h: Cells, ss: seq<Slot>, vs: seq<Variant>): set<nat>
    decreases vs
  {
    if vs == [] || |ss| != |vs| then {}
    else OwnedAll(h, ss[..|ss| - 1], vs[..|vs| - 1]) + Owned(h, ss[|ss| - 1], vs[|vs| - 1])
  }

  /** The array record at a, and where its data are: nowhere when it is empty. */
  predicate IsArrayAt(h: Cells, a: nat, elemVt: nat, lb: int, count: nat)
  {
    var d := DataOf(h, a);
    Holds(h, a, Safe(elemVt, lb, count, d)) && (count == 0 <==> d == 0) && d != a
  }

  predicate Apart(own: set<nat>, a: nat, d: nat)
  {
    a !in own && d !in own
  }

  /** The slot stands for v, and no block is owned twice. */
  predicate Rep(h: Cells, s: Slot, v: Variant)
    decreases v
  {
    s.vt == TypeOf(v) &&
    var a := s.val;
    var d := DataOf(h, a);
    match v
    case Scalar(_, bits) => a == bits
    case Str(u) => IsString(h, a, u)
    case Missing(_) => a == 0
    case Vector(e, lb, xs) => IsArrayAt(h, a, e, lb, |xs|) && (xs != [] ==> Holds(h, d, Nums(xs)))
    case Strings(lb, us) =>
      && IsArrayAt(h, a, VT_BSTR, lb, |us|)
      && (us != [] ==> Holds(h, d, Pointers(PointersOf(h, a))))
      && RepStrings(h, PointersOf(h, a), us) && Apart(StringBlocks(PointersOf(h, a)), a, d)
    case Nested(lb, vs) =>
      && IsArrayAt(h, a, VT_VARIANT, lb, |vs|)
      && (vs != [] ==> Holds(h, d, Slots(SlotsOf(h, a))))
      && RepAll(h, SlotsOf(h, a), vs) && Apart(OwnedAll(h, SlotsOf(h, a), vs), a, d)
  }

  predicate RepStrings(h: Cells, ps: seq<nat>, us: seq<seq<nat>>)
  {
    |ps| == |us| &&
    (us == [] ||
     (var n := |us| - 1;
      RepStrings(h, ps[..n], us[..n]) && IsString(h, ps[n], us[n]) && StringBlocks(ps[..n]) !! One(ps[n])))
  }

  predicate RepAll(h: Cells, ss: seq<Slot>, vs: seq<Variant>)
    decreases vs
  {
    |ss| == |vs| &&
    (vs == [] ||
     (var n := |vs| - 1;
      RepAll(h, ss[..n], vs[..n]) && Rep(h, ss[n], vs[n]) && OwnedAll(h, ss[..n], vs[..n]) !! Owned(h, ss[n], vs[n])))
  }

  // ----- changes elsewhere do not matter -----

  /** The blocks in own are the same in both heaps. */
  predicate Same(h: Cells, k: Cells, own: set<nat>)
  {
    forall a :: a in own ==> a in h && a in k && h[a] == k[a]
  }

  lemma {:induction false} FrameStrings(h: Cells, k: Cells, ps: seq<nat>, us: seq<seq<nat>>)
    requires RepStrings(h, ps, us) && Same(h, k, StringBlocks(ps))
    ensures RepStrings(k, ps, us)
  {
    if us != [] {
      FrameStrings(h, k, ps[..|us| - 1], us[..|us| - 1]);
    }
  }

  lemma {:induction false} Frame(h: Cells, k: Cells, s: Slot, v: Variant)
    requires Rep(h, s, v) && Same(h, k, Owned(h, s, v))
    ensures Rep(k, s, v) && Owned(k, s, v) == Owned(h, s, v)
    decreases v
  {
    match v
    case Strings(_, us) =>
      assert DataOf(k, s.val) == DataOf(h, s.val) && PointersOf(k, s.val) == PointersOf(h, s.val);
      FrameStrings(h, k, PointersOf(h, s.val), us);
    case Nested(_, vs) =>
      assert DataOf(k, s.val) == DataOf(h, s.val) && SlotsOf(k, s.val) == SlotsOf(h, s.val);
      FrameAll(h, k, SlotsOf(h, s.val), vs);
    case _ =>
  }

  lemma {:induction false} FrameAll(h: Cells, k: Cells, ss: seq<Slot>, vs: seq<Variant>)
    requires RepAll(h, ss, vs) && Same(h, k, OwnedAll(h, ss, vs))
    ensures RepAll(k, ss, vs) && OwnedAll(k, ss, vs) == OwnedAll(h, ss, vs)
    decreases vs
  {
    if vs != [] {
      var n := |vs| - 1;
      FrameAll(h, k, ss[..n], vs[..n]);
      Frame(h, k, ss[n], vs[n]);
    }
  }

  lemma {:induction false} StringsThere(h: Cells, ps: seq<nat>, us: seq<seq<nat>>)
    requires RepStrings(h, ps, us)
    ensures StringBlocks(ps) <= h.Keys && 0 !in StringBlocks(ps)
  {
    if us != [] {
      StringsThere(h, ps[..|us| - 1], us[..|us| - 1]);
    }
  }

  lemma {:induction false} OwnedThere(h: Cells, s: Slot, v: Variant)
    requires Rep(h, s, v)
    ensures Owned(h, s, v) <= h.Keys && 0 !in Owned(h, s, v)
    decreases v
  {
    match v
    case Strings(_, us) => StringsThere(h, PointersOf(h, s.val), us);
    case Nested(_, vs) => OwnedAllThere(h, SlotsOf(h, s.val), vs);
    case _ =>
  }

  lemma {:induction false} OwnedAllThere(h: Cells, ss: seq<Slot>, vs: seq<Variant>)
    requires RepAll(h, ss, vs)
    ensures OwnedAll(h, ss, vs) <= h.Keys && 0 !in OwnedAll(h, ss, vs)
    decreases vs
  {
    if vs != [] {
      var n := |vs| - 1;
      OwnedAllThere(h, ss[..n], vs[..n]);
      OwnedThere(h, ss[n], vs[n]);
    }
  }

  /** Removing blocks that are not owned. */
  lemma FrameWithout(h: Cells, gone: set<nat>, s: Slot, v: Variant)
    requires Rep(h, s, v) && Owned(h, s, v) !! gone
    ensures Rep(h - gone, s, v) && Owned(h - gone, s, v) == Owned(h, s, v)
  {
    OwnedThere(h, s, v);
    Frame(h, h - gone, s, v);
  }

  // ----- malloc and free -----

  class Memory {
    var cells: Cells

    /** malloc: an address that is not in use */
    method Alloc(b: Block) returns (a: nat)
      modifies this
      ensures a != 0 && a !in old(cells) && cells == old(cells)[a := b]
    {
      Unused(cells);
      a :| a != 0 && a !in cells;
      cells := cells[a := b];
    }

    /** free: only of a block that is there, so that none is freed twice */
    method Free(a: nat)
      requires a in cells
      modifies this
      ensures cells == old(cells) - {a}
    {
      cells := cells - {a};
    }

    method SysAllocString(p: nat, ghost u: seq<nat>) returns (q: nat)
      requires IsString(cells, p, u)
      modifies this
      ensures IsString(cells, q, u)
      ensures q == 0 || q !in old(cells)
      ensures cells == if q == 0 then old(cells) else old(cells)[q := Bstr(u)]
    {
      if p == 0 { return 0; }
      q := Alloc(cells[p]);
    }

    method SysFreeString(p: nat)
      requires p != 0 ==> p in cells
      modifies this
      ensures cells == old(cells) - One(p)
    {
      if p != 0 {
        Free(p);
      }
    }

    // ----- VariantCopy -----

    /** SafeArrayCreateVector: the record, and zeroed data unless there are no elements. */
    method SafeArrayCreateVector(elemVt: nat, lb: int, count: nat) returns (a: nat)
      modifies this
      ensures count > 0 && Unknown(elemVt) ==> a == 0 && cells == old(cells)
      ensures count == 0 || !Unknown(elemVt) ==> Created(old(cells), cells, a, elemVt, lb, count)
    {
      if count > 0 && Unknown(elemVt) { return 0; }
      a := Alloc(Safe(elemVt, lb, count, 0));
      if count > 0 {
        var d := Alloc(Zeroed(elemVt, count));
        cells := cells[a := Safe(elemVt, lb, count, d)];
      }
    }

    /** One string of the loop, from the source pointer p into place i of the data at d. */
    method CopyString(i: nat, p: nat, d: nat, ghost u: seq<nat>, ghost h0: Cells, ghost qs: seq<nat>,
                      ghost us: seq<seq<nat>>, ghost left: nat) returns (q: nat)
      requires StringsFilled(h0, cells, d, qs, us, left) && left > 0 && i == |qs| && IsString(cells, p, u)
      modifies this
      ensures StringsFilled(h0, cells, d, qs + [q], us + [u], left - 1)
    {
      ghost var h := cells;
      q := SysAllocString(p, u);
      cells := cells[d := Pointers(cells[d].ptrs[i := q])];
      StringFilled(h0, h, d, qs, us, left, q, u, cells);
    }

    /** Entry i of the source array, copied from its place. */
    method CopyEntry(i: nat, ps: seq<nat>, d: nat, ghost us: seq<seq<nat>>, ghost h0: Cells, ghost qs: seq<nat>)
      returns (q: nat)
      requires RepStrings(h0, ps, us) && d !in StringBlocks(ps)
      requires |qs| == i < |ps| && StringsFilled(h0, cells, d, qs, us[..i], |ps| - i)
      modifies this
      ensures StringsFilled(h0, cells, d, qs + [q], us[..i + 1], |ps| - (i + 1))
    {
      ghost var done, left := us[..i], |ps| - i;
      StringIn(h0, cells, d, ps, us, i, qs, done, left);
      q := CopyString(i, ps[i], d, us[i], h0, qs, done, left);
      assert us[..i + 1] == done + [us[i]];
    }

    method CopyStrings(ps: seq<nat>, d: nat, ghost us: seq<seq<nat>>) returns (ghost qs: seq<nat>)
      requires RepStrings(cells, ps, us) && Holds(cells, d, Pointers(Zeros(|ps|))) && d !in StringBlocks(ps)
      modifies this
      ensures StringsFilled(old(cells), cells, d, qs, us, 0)
    {
      ghost var h0 := cells;
      qs := [];
      assert [] + Zeros(|ps|) == Zeros(|ps|);
      for i := 0 to |ps|
        invariant |qs| == i && StringsFilled(h0, cells, d, qs, us[..i], |ps| - i)
      {
        var q := CopyEntry(i, ps, d, us, h0, qs);
        qs := qs + [q];
      }
      assert us[..|ps|] == us;
    }

    /** One element of the loop, its own copy first. */
    method CopySlot(i: nat, s: Slot, d: nat, ghost v: Variant, ghost h0: Cells, ghost rs: seq<Slot>,
                    ghost ws: seq<Variant>, ghost left: nat) returns (r: Slot)
      requires SlotsFilled(h0, cells, d, rs, ws, left) && left > 0 && i == |rs|
      requires Typed(v) && Complete(v) && Rep(h0, s, v) && d !in Owned(h0, s, v)
      modifies this
      ensures SlotsFilled(h0, cells, d, rs + [r], ws + [Copied(v)], left - 1)
      decreases v, 4
    {
      ghost var h := cells;
      OwnedThere(h0, s, v);
      Frame(h0, h, s, v);
      var _, r' := CopyNew(s, v);
      r := r';
      ghost var k := cells;
      cells := cells[d := Slots(cells[d].slots[i := r])];
      assert d !in Owned(k, r, Copied(v));
      OwnedThere(k, r, Copied(v));
      Frame(k, cells, r, Copied(v));
      SlotFilled(h0, h, d, rs, ws, left, r, Copied(v), cells);
    }

    /** Element i of the source array, copied from its place. */
    method CopyItem(i: nat, ss: seq<Slot>, d: nat, ghost v: Variant, ghost h0: Cells, ghost rs: seq<Slot>)
      returns (r: Slot)
      requires v.Nested? && Typed(v) && Complete(v) && RepAll(h0, ss, v.items) && d !in OwnedAll(h0, ss, v.items)
      requires i < |ss| && FilledUpTo(h0, cells, d, rs, v, |ss|, i)
      modifies this
      ensures FilledUpTo(h0, cells, d, rs + [r], v, |ss|, i + 1)
      decreases v, 0
    {
      ItemReady(h0, ss, v, i, d);
      CopiedPrefix(v.items, i);
      ghost var ws, left := CopiedAll(v.items[..i]), |ss| - i;
      r := CopySlot(i, ss[i], d, v.items[i], h0, rs, ws, left);
    }

    method CopySlots(ss: seq<Slot>, d: nat, ghost v: Variant) returns (ghost rs: seq<Slot>)
      requires v.Nested? && Typed(v) && Complete(v) && RepAll(cells, ss, v.items)
      requires Holds(cells, d, Slots(Empties(|ss|))) && d !in OwnedAll(cells, ss, v.items)
      modifies this
      ensures SlotsFilled(old(cells), cells, d, rs, CopiedAll(v.items), 0)
      decreases v, 1
    {
      ghost var h0 := cells;
      rs := [];
      NoneFilled(h0, d, v, |ss|);
      for i := 0 to |ss|
        invariant FilledUpTo(h0, cells, d, rs, v, |ss|, i)
      {
        var r := CopyItem(i, ss, d, v, h0, rs);
        rs := rs + [r];
      }
      AllFilled(h0, cells, d, rs, v);
    }

    method CopyVector(s: Slot, ghost v: Variant) returns (r: Slot)
      requires v.Vector? && Typed(v) && Copyable(v) && Rep(cells, s, v)
      modifies this
      ensures CopyDone(old(cells), cells, r, v)
    {
      var src := cells[s.val];
      var a := SafeArrayCreateVector(src.elemVt, src.lbound, src.count);
      if src.count > 0 {
        cells := cells[cells[a].data := cells[src.data]];
      }
      r := Slot(s.vt, a);
    }

    method CopyStringArray(s: Slot, ghost v: Variant) returns (r: Slot)
      requires v.Strings? && Rep(cells, s, v)
      modifies this
      ensures CopyDone(old(cells), cells, r, v)
    {
      var src := cells[s.val];
      var a := SafeArrayCreateVector(VT_BSTR, src.lbound, src.count);
      r := Slot(s.vt, a);
      ghost var h0, h1 := old(cells), cells;
      if src.count > 0 {
        var ps := cells[src.data].ptrs;
        StringsThere(h0, ps, v.strs);
        FrameStrings(h0, h1, ps, v.strs);
        ghost var qs := CopyStrings(ps, cells[a].data, v.strs);
        StringsDone(h0, h1, cells, a, v.lbound, qs, v.strs);
      }
    }

    method CopyNested(s: Slot, ghost v: Variant) returns (r: Slot)
      requires v.Nested? && Typed(v) && Complete(v) && Rep(cells, s, v)
      modifies this
      ensures CopyDone(old(cells), cells, r, Copied(v))
      decreases v, 2
    {
      var src := cells[s.val];
      var a := SafeArrayCreateVector(VT_VARIANT, src.lbound, src.count);
      r := Slot(s.vt, a);
      ghost var h0, h1 := old(cells), cells;
      if src.count > 0 {
        var ss := cells[src.data].slots;
        OwnedAllThere(h0, ss, v.items);
        FrameAll(h0, h1, ss, v.items);
        ghost var rs := CopySlots(ss, cells[a].data, v);
        NestedDone(h0, h1, cells, a, v.lbound, rs, CopiedAll(v.items));
      }
    }

    /** VariantCopy into an empty destination. */
    method CopyNew(s: Slot, ghost v: Variant) returns (ok: bool, r: Slot)
      requires Typed(v) && Complete(v) && Rep(cells, s, v)
      modifies this
      ensures ok == Copyable(v) && CopyDone(old(cells), cells, r, Copied(v))
      decreases v, 3
    {
      ok, r := true, EMPTY;
      if IsArray(s.vt) {
        var e := ElemType(s.vt);
        if e == VT_BSTR {
          r := CopyStringArray(s, v);
        } else if e == VT_VARIANT {
          r := CopyNested(s, v);
        } else if CopiedElement(e) {
          r := CopyVector(s, v);
        } else {
          ok := false;
        }
      } else if s.vt == VT_BSTR {
        var q := SysAllocString(s.val, v.units);
        r := Slot(VT_BSTR, q);
      } else if CopiedScalar(s.vt) {
        r := s;
      } else {
        ok := false;
      }
    }

    /**
     * VariantCopy. A variant copied onto itself, both pointers being the same, is left alone; otherwise the
     * destination is released first.
     */
    method VariantCopy(same: bool, dest: Slot, s: Slot, ghost w: Variant, ghost v: Variant) returns (ok: bool, r: Slot)
      requires Typed(w) && Rep(cells, dest, w) && Typed(v) && Complete(v) && Rep(cells, s, v)
      requires if same then dest == s else Owned(cells, dest, w) !! Owned(cells, s, v)
      modifies this
      ensures same ==> ok && r == dest && cells == old(cells)
      ensures !same ==> ok == Copyable(v)
      ensures !same ==> CopyDone(old(cells) - Owned(old(cells), dest, w), cells, r, Copied(v))
      ensures Rep(cells, s, v) && Owned(cells, s, v) == Owned(old(cells), s, v)
    {
      if same { return true, dest; }
      FrameWithout(cells, Owned(cells, dest, w), s, v);
      var _ := VariantClear(dest, w);
      ghost var h := cells;
      OwnedThere(h, s, v);
      ok, r := CopyNew(s, v);
      Frame(h, cells, s, v);
    }

    // ----- VariantClear and SafeArrayDestroy -----

    method FreeStrings(ps: seq<nat>, ghost us: seq<seq<nat>>)
      requires RepStrings(cells, ps, us)
      modifies this
      ensures cells == old(cells) - StringBlocks(ps)
    {
      for i := 0 to |ps|
        invariant cells == old(cells) - StringBlocks(ps[..i])
      {
        StringAt(old(cells), ps, us, i);
        SysFreeString(ps[i]);
      }
      assert ps[..|ps|] == ps;
    }

    /** VariantClear: the slot's blocks are freed, each of them once, and nothing else is touched. */
    method VariantClear(s: Slot, ghost v: Variant) returns (r: Slot)
      requires Typed(v) && Rep(cells, s, v)
      modifies this
      ensures cells == old(cells) - Owned(old(cells), s, v) && r == EMPTY
      decreases v, 3
    {
      r := EMPTY;
      if IsArray(s.vt) {
        if s.val != 0 {
          SafeArrayDestroy(s.val, s, v);
        }
      } else if s.vt == VT_BSTR {
        SysFreeString(s.val);
      }
    }

    method SafeArrayDestroy(a: nat, ghost s: Slot, ghost v: Variant)
      requires Typed(v) && Rep(cells, s, v) && IsArray(s.vt) && a == s.val != 0
      modifies this
      ensures cells == old(cells) - Owned(old(cells), s, v)
      decreases v, 2
    {
      var psa := cells[a];
      if psa.data != 0 {
        if psa.elemVt == VT_BSTR {
          FreeStrings(cells[psa.data].ptrs, v.strs);
        } else if psa.elemVt == VT_VARIANT {
          ClearAll(cells[psa.data].slots, v);
        }
        Free(psa.data);
      }
      Free(a);
    }

    /** Element i, with those before it gone already. */
    method ClearItem(i: nat, ss: seq<Slot>, ghost v: Variant, ghost h0: Cells)
      requires v.Nested? && Typed(v) && RepAll(h0, ss, v.items) && i < |ss|
      requires cells == h0 - OwnedAll(h0, ss[..i], v.items[..i])
      modifies this
      ensures cells == h0 - OwnedAll(h0, ss[..i + 1], v.items[..i + 1])
      decreases v, 0
    {
      SlotAt(h0, ss, v.items, i);
      FrameWithout(h0, OwnedAll(h0, ss[..i], v.items[..i]), ss[i], v.items[i]);
      var _ := VariantClear(ss[i], v.items[i]);
    }

    method ClearAll(ss: seq<Slot>, ghost v: Variant)
      requires v.Nested? && Typed(v) && RepAll(cells, ss, v.items)
      modifies this
      ensures cells == old(cells) - OwnedAll(old(cells), ss, v.items)
      decreases v, 1
    {
      ghost var h0, vs := cells, v.items;
      for i := 0 to |ss|
        invariant cells == h0 - OwnedAll(h0, ss[..i], vs[..i])
      {
        ClearItem(i, ss, v, h0);
      }
      assert ss[..|ss|] == ss && vs[..|vs|] == vs;
    }
  }

  /** The copy stands for w, shares no block with anything there before, and nothing else changed. */
  predicate CopyDone(h0: Cells, h: Cells, r: Slot, w: Variant)
  {
    && Rep(h, r, w) && Owned(h, r, w) !! h0.Keys && h.Keys == h0.Keys + Owned(h, r, w)
    && forall x :: x in h0 ==> h[x] == h0[x]
  }

  /** A source string is still there while the copies are being made. */
  lemma StringIn(h0: Cells, h: Cells, d: nat, ps: seq<nat>, us: seq<seq<nat>>, i: nat,
                 qs: seq<nat>, done: seq<seq<nat>>, left: nat)
    requires RepStrings(h0, ps, us) && i < |ps| && d !in StringBlocks(ps) && StringsFilled(h0, h, d, qs, done, left)
    ensures IsString(h, ps[i], us[i])
  {
    StringAt(h0, ps, us, i);
  }

  lemma ItemReady(h0: Cells, ss: seq<Slot>, v: Variant, i: nat, d: nat)
    requires v.Nested? && Typed(v) && Complete(v) && RepAll(h0, ss, v.items) && i < |ss|
    requires d !in OwnedAll(h0, ss, v.items)
    ensures var item := v.items[i];
            item < v && Typed(item) && Complete(item) && Rep(h0, ss[i], item) && d !in Owned(h0, ss[i], item)
  {
    SlotAt(h0, ss, v.items, i);
  }

  lemma StringsDone(h0: Cells, h1: Cells, h: Cells, a: nat, lb: int, qs: seq<nat>, us: seq<seq<nat>>)
    requires us != [] && Created(h0, h1, a, VT_BSTR, lb, |us|) && StringsFilled(h1, h, DataOf(h1, a), qs, us, 0)
    ensures CopyDone(h0, h, Slot(VT_BSTR + VT_ARRAY, a), Strings(lb, us))
  {
    assert qs + Zeros(0) == qs;
    assert DataOf(h, a) == DataOf(h1, a) && PointersOf(h, a) == qs;
  }

  lemma NestedDone(h0: Cells, h1: Cells, h: Cells, a: nat, lb: int, rs: seq<Slot>, ws: seq<Variant>)
    requires ws != [] && Created(h0, h1, a, VT_VARIANT, lb, |ws|) && SlotsFilled(h1, h, DataOf(h1, a), rs, ws, 0)
    ensures CopyDone(h0, h, Slot(VT_VARIANT + VT_ARRAY, a), Nested(lb, ws))
  {
    assert rs + Empties(0) == rs;
    assert DataOf(h, a) == DataOf(h1, a) && SlotsOf(h, a) == rs;
  }

  /** Element i stands for its value and owns nothing the elements before it own. */
  lemma {:induction false} SlotAt(h: Cells, ss: seq<Slot>, vs: seq<Variant>, i: nat)
    requires RepAll(h, ss, vs) && i < |ss|
    ensures Rep(h, ss[i], vs[i]) && Owned(h, ss[i], vs[i]) !! OwnedAll(h, ss[..i], vs[..i])
    ensures OwnedAll(h, ss[..i + 1], vs[..i + 1]) == OwnedAll(h, ss[..i], vs[..i]) + Owned(h, ss[i], vs[i])
    ensures Owned(h, ss[i], vs[i]) <= OwnedAll(h, ss, vs)
    decreases |ss|
  {
    var n := |ss| - 1;
    if i < n {
      SlotAt(h, ss[..n], vs[..n], i);
      assert ss[..n][..i] == ss[..i] && ss[..n][..i + 1] == ss[..i + 1];
      assert vs[..n][..i] == vs[..i] && vs[..n][..i + 1] == vs[..i + 1];
    } else {
      assert ss[..i + 1] == ss && vs[..i + 1] == vs;
    }
  }

  /** The string at i is there, and not among the blocks of those before it. */
  lemma {:induction false} StringAt(h: Cells, ps: seq<nat>, us: seq<seq<nat>>, i: nat)
    requires RepStrings(h, ps, us) && i < |ps|
    ensures IsString(h, ps[i], us[i]) && One(ps[i]) !! StringBlocks(ps[..i])
    ensures StringBlocks(ps[..i + 1]) == StringBlocks(ps[..i]) + One(ps[i]) && One(ps[i]) <= StringBlocks(ps)
  {
    var n := |ps| - 1;
    if i < n {
      StringAt(h, ps[..n], us[..n], i);
      assert ps[..n][..i] == ps[..i] && ps[..n][..i + 1] == ps[..i + 1];
    } else {
      assert ps[..i + 1] == ps;
    }
  }

  lemma Unused(h: Cells)
    ensures exists a: nat :: a != 0 && a !in h
  {
    var a := 1 + MaxOf(h.Keys);
    assert a !in h.Keys;
  }

  ghost function MaxOf(s: set<nat>): (m: nat)
    ensures forall a :: a in s ==> a <= m
  {
    if s == {} then 0
    else
      var x :| x in s;
      var m := MaxOf(s - {x});
      assert s == (s - {x}) + {x};
      if x > m then x else m
  }

  // ----- filling the data of a new array -----

  predicate Unknown(elemVt: nat)
  {
    CreatedWidth(elemVt) == 0
  }

  function Zeroed(elemVt: nat, count: nat): Block
  {
    if elemVt == VT_BSTR then Pointers(Zeros(count))
    else if elemVt == VT_VARIANT then Slots(Empties(count))
    else Nums(Zeros(count))
  }

  /** Since h0 exactly an array record and its zeroed data were added. */
  predicate Created(h0: Cells, h: Cells, a: nat, elemVt: nat, lb: int, count: nat)
  {
    var d := DataOf(h, a);
    && IsArrayAt(h, a, elemVt, lb, count) && (count > 0 ==> Holds(h, d, Zeroed(elemVt, count)))
    && a !in h0 && (d != 0 ==> d !in h0) && h.Keys == h0.Keys + One(a) + One(d)
    && forall x :: x in h0 ==> h[x] == h0[x]
  }

  /** Since h0 only block d changed, and exactly the blocks in own were added. */
  predicate Filled(h0: Cells, h: Cells, d: nat, own: set<nat>)
  {
    && d in h0 && own !! h0.Keys && h.Keys == h0.Keys + own
    && forall a :: a in h0 && a != d ==> a in h && h[a] == h0[a]
  }

  function Empties(n: nat): (s: seq<Slot>)
    ensures |s| == n
  {
    seq(n, _ => EMPTY)
  }

  /** The pointers qs are in place and stand for the strings us; the places after them are NULL. */
  predicate StringsFilled(h0: Cells, h: Cells, d: nat, qs: seq<nat>, us: seq<seq<nat>>, left: nat)
  {
    Filled(h0, h, d, StringBlocks(qs)) && Holds(h, d, Pointers(qs + Zeros(left))) && RepStrings(h, qs, us)
  }

  /** Adding the blocks more and rewriting block d. */
  lemma FilledMore(h0: Cells, h: Cells, k: Cells, d: nat, own: set<nat>, more: set<nat>)
    requires Filled(h0, h, d, own) && more !! h.Keys && k.Keys == h.Keys + more
    requires forall a :: a in h && a != d ==> k[a] == h[a]
    ensures Filled(h0, k, d, own + more)
  {
  }

  lemma StringsSnoc(h: Cells, qs: seq<nat>, us: seq<seq<nat>>, q: nat, u: seq<nat>)
    requires RepStrings(h, qs, us) && IsString(h, q, u) && StringBlocks(qs) !! One(q)
    ensures RepStrings(h, qs + [q], us + [u]) && StringBlocks(qs + [q]) == StringBlocks(qs) + One(q)
  {
    assert (qs + [q])[..|qs|] == qs && (us + [u])[..|us|] == us;
  }

  lemma PlaceFilled(qs: seq<nat>, left: nat, q: nat)
    requires left > 0
    ensures (qs + Zeros(left))[|qs| := q] == qs + [q] + Zeros(left - 1)
  {
  }

  lemma StringFilled(h0: Cells, h: Cells, d: nat, qs: seq<nat>, us: seq<seq<nat>>, left: nat,
                     q: nat, u: seq<nat>, k: Cells)
    requires StringsFilled(h0, h, d, qs, us, left) && left > 0
    requires One(q) !! h.Keys && k.Keys == h.Keys + One(q) && IsString(k, q, u)
    requires forall a :: a in h && a != d ==> k[a] == h[a]
    requires k[d] == Pointers((qs + Zeros(left))[|qs| := q])
    ensures StringsFilled(h0, k, d, qs + [q], us + [u], left - 1)
  {
    StringsThere(h, qs, us);
    FrameStrings(h, k, qs, us);
    StringsSnoc(k, qs, us, q, u);
    PlaceFilled(qs, left, q);
    FilledMore(h0, h, k, d, StringBlocks(qs), One(q));
  }

  /** The slots ss are in place and stand for vs; the places after them are empty. */
  predicate SlotsFilled(h0: Cells, h: Cells, d: nat, ss: seq<Slot>, vs: seq<Variant>, left: nat)
  {
    Filled(h0, h, d, OwnedAll(h, ss, vs)) && Holds(h, d, Slots(ss + Empties(left))) && RepAll(h, ss, vs)
  }

  /** The loop over n elements has copied the first i of those of v. */
  predicate FilledUpTo(h0: Cells, h: Cells, d: nat, rs: seq<Slot>, v: Variant, n: nat, i: nat)
  {
    v.Nested? && |rs| == i <= n == |v.items| && SlotsFilled(h0, h, d, rs, CopiedAll(v.items[..i]), n - i)
  }

  lemma NoneFilled(h: Cells, d: nat, v: Variant, n: nat)
    requires v.Nested? && |v.items| == n && Holds(h, d, Slots(Empties(n)))
    ensures FilledUpTo(h, h, d, [], v, n, 0)
  {
    assert [] + Empties(n) == Empties(n);
  }

  lemma AllFilled(h0: Cells, h: Cells, d: nat, rs: seq<Slot>, v: Variant)
    requires v.Nested? && FilledUpTo(h0, h, d, rs, v, |v.items|, |v.items|)
    ensures SlotsFilled(h0, h, d, rs, CopiedAll(v.items), 0)
  {
    assert v.items[..|v.items|] == v.items;
  }

  lemma SlotsSnoc(h: Cells, ss: seq<Slot>, vs: seq<Variant>, r: Slot, w: Variant)
    requires RepAll(h, ss, vs) && Rep(h, r, w) && OwnedAll(h, ss, vs) !! Owned(h, r, w)
    ensures RepAll(h, ss + [r], vs + [w]) && OwnedAll(h, ss + [r], vs + [w]) == OwnedAll(h, ss, vs) + Owned(h, r, w)
  {
    assert (ss + [r])[..|ss|] == ss && (vs + [w])[..|vs|] == vs;
  }

  lemma SlotPlaceFilled(ss: seq<Slot>, left: nat, r: Slot)
    requires left > 0
    ensures (ss + Empties(left))[|ss| := r] == ss + [r] + Empties(left - 1)
  {
  }

  lemma SlotFilled(h0: Cells, h: Cells, d: nat, ss: seq<Slot>, vs: seq<Variant>, left: nat,
                   r: Slot, w: Variant, k: Cells)
    requires SlotsFilled(h0, h, d, ss, vs, left) && left > 0
    requires Rep(k, r, w) && Owned(k, r, w) !! h.Keys && k.Keys == h.Keys + Owned(k, r, w)
    requires forall a :: a in h && a != d ==> k[a] == h[a]
    requires k[d] == Slots((ss + Empties(left))[|ss| := r])
    ensures SlotsFilled(h0, k, d, ss + [r], vs + [w], left - 1)
  {
    OwnedAllThere(h, ss, vs);
    FrameAll(h, k, ss, vs);
    SlotsSnoc(k, ss, vs, r, w);
    SlotPlaceFilled(ss, left, r);
    FilledMore(h0, h, k, d, OwnedAll(h, ss, vs), Owned(k, r, w));
  }

  // ----- what a copy stands for -----

  // The two switches of VariantCopy.

  predicate CopiedElement(vt: nat)
  {
    vt in {VT_I2, VT_I4, VT_I8, VT_R4, VT_R8, VT_CY, VT_DATE, VT_BOOL, VT_UI1, VT_UI2, VT_UI4, VT_UI8}
  }

  predicate CopiedScalar(vt: nat)
  {
    vt in {VT_EMPTY, VT_NULL, VT_I2, VT_I4, VT_I8, VT_R4, VT_R8, VT_CY, VT_DATE, VT_ERROR, VT_BOOL, VT_UI1, VT_UI2,
           VT_UI4, VT_UI8}
  }

  /** VariantCopy knows every type the packet routines give a width, and besides only the two empty ones. */
  lemma CopiesWhatIsSent(vt: nat)
    ensures CopiedElement(vt) <==> ElemWidth(vt) > 0
    ensures CopiedElement(vt) <==> CreatedWidth(vt) > 0 && vt != VT_BSTR && vt != VT_VARIANT
    ensures CopiedScalar(vt) <==> Width(vt) > 0 || vt == 0 || vt == 1
  {
  }

  /** The types VariantCopy knows; for any other it reports a bad type and leaves the destination empty. */
  predicate Copyable(v: Variant)
  {
    match v
    case Scalar(vt, _) => CopiedScalar(vt)
    case Vector(e, _, _) => CopiedElement(e)
    case _ => true
  }

  /** The value of the copy. An element's bad type is not reported: the element becomes empty. */
  function Copied(v: Variant): Variant
    decreases v
  {
    if !Copyable(v) then Scalar(VT_EMPTY, 0)
    else if v.Nested? then Nested(v.lbound, CopiedAll(v.items))
    else v
  }

  function CopiedAll(vs: seq<Variant>): (r: seq<Variant>)
    ensures |r| == |vs|
    decreases vs
  {
    if vs == [] then [] else CopiedAll(vs[..|vs| - 1]) + [Copied(vs[|vs| - 1])]
  }

  ghost predicate AllCopyable(v: Variant)
  {
    Copyable(v) && (v.Nested? ==> forall i :: 0 <= i < |v.items| ==> AllCopyable(v.items[i]))
  }

  lemma {:induction false} CopiedPrefix(vs: seq<Variant>, i: nat)
    requires i < |vs|
    ensures CopiedAll(vs)[i] == Copied(vs[i]) && CopiedAll(vs)[..i] == CopiedAll(vs[..i])
    ensures CopiedAll(vs[..i + 1]) == CopiedAll(vs[..i]) + [Copied(vs[i])]
  {
    var n := |vs| - 1;
    if i < n {
      CopiedPrefix(vs[..n], i);
      assert vs[..n][..i] == vs[..i] && vs[..n][..i + 1] == vs[..i + 1];
      assert CopiedAll(vs)[..i] == CopiedAll(vs[..n])[..i];
    } else {
      assert vs[..i + 1] == vs;
    }
  }

  /** A copy equals its source exactly when every type in the tree is one VariantCopy knows. */
  lemma {:induction false} CopiedSame(v: Variant)
    ensures Copied(v) == v <==> AllCopyable(v)
  {
    if v.Nested? {
      forall i | 0 <= i < |v.items| ensures CopiedAll(v.items)[i] == v.items[i] <==> AllCopyable(v.items[i]) {
        CopiedPrefix(v.items, i);
        CopiedSame(v.items[i]);
      }
      if AllCopyable(v) {
        assert CopiedAll(v.items) == v.items;
      }
    }
  }

  /** Releasing a copy gives back the heap from before it was made: no leak, nothing freed twice. */
  lemma CopyThenClear(h0: Cells, h: Cells, r: Slot, w: Variant)
    requires CopyDone(h0, h, r, w)
    ensures h - Owned(h, r, w) == h0
  {
    var left := h - Owned(h, r, w);
    assert left.Keys == h0.Keys;
    assert forall x :: x in h0 ==> left[x] == h0[x];
  }

  const VT_DISPATCH := 9

  /** VariantCopy reports success for this array, and yet its element comes out empty. */
  lemma ElementEmptied(v: Variant)
    requires v == Nested(0, [Scalar(VT_DISPATCH, 0)])
    ensures Typed(v) && Complete(v) && Copyable(v) && Copied(v) == Nested(0, [Scalar(VT_EMPTY, 0)]) != v
  {
    CopiedPrefix(v.items, 0);
  }
}
