/** The two conversion routines of rac_string.c, whose loops compute Print and Parse. */
module RacConvert {
  import opened Wire
  import opened Variants
  import opened RacText
  import opened RacNumber
  import opened RacValue

  // ----- printing -----

  lemma JoinNext(ps: seq<Text>, i: nat)
    requires i < |ps|
    ensures Before(ps[..i]) + ps[i] == Join(ps[..i + 1])
  {
    assert ps[..i + 1] == ps[..i] + [ps[i]];
    JoinSnoc(ps[..i], ps[i], COMMA);
  }

  /** strcat: the text, what is appended and its NUL must fit the block. */
  method StrCat(text: Text, more: Text, block: nat) returns (r: Text)
    requires |text| + |more| < block
    ensures r == text + more
  {
    r := text + more;
  }

  /**
   * The realloc and strcat loop. The length asked for before piece i counts a NUL for each piece so far, so
   * every strcat stays within its block, and i bytes of it are spare.
   */
  method Concatenate(ps: seq<Text>) returns (text: Text)
    requires ps != []
    ensures text == Join(ps)
  {
    var len := 0;
    text := [];
    for i := 0 to |ps|
      invariant text == if i < |ps| then Before(ps[..i]) else Join(ps[..i])
      invariant len == |text| + i
    {
      JoinNext(ps, i);
      len := len + |ps[i]| + (if i == |ps| - 1 then 1 else 2);
      text := StrCat(text, ps[i], len);
      text := StrCat(text, if i == |ps| - 1 then [] else [COMMA], len);
    }
    assert ps[..|ps|] == ps;
  }

  lemma LeavesFail(e: nat, xs: seq<nat>)
    requires xs != [] && !IntType(e) && forall i :: 0 <= i < |xs| ==> xs[i] < Pow256(ElemWidth(e))
    ensures PrintLeaves(e, xs) == None
  {
  }

  lemma {:induction false} ItemFails(vs: seq<Variant>, i: nat)
    requires i < |vs| && (forall k :: 0 <= k < |vs| ==> Typed(vs[k])) && Print(vs[i]).None?
    ensures PrintItems(vs) == None
  {
    if i < |vs| - 1 {
      ItemFails(vs[..|vs| - 1], i);
    }
  }

  method PrintNumbers(e: nat, xs: seq<nat>) returns (r: Option<seq<Text>>)
    requires xs != [] && forall i :: 0 <= i < |xs| ==> xs[i] < Pow256(ElemWidth(e))
    ensures r == PrintLeaves(e, xs)
  {
    var ps: seq<Text> := [];
    for i := 0 to |xs|
      invariant PrintLeaves(e, xs[..i]) == Some(ps)
    {
      var t := PrintLeaf(e, xs[i]);
      if t.None? {
        LeavesFail(e, xs);
        return None;
      }
      assert xs[..i + 1][..i] == xs[..i];
      ps := ps + [t.value];
    }
    assert xs[..|xs|] == xs;
    return Some(ps);
  }

  /** ConvertVariant2RacStr */
  method ConvertVariant2RacStr(v: Variant) returns (r: Option<Text>)
    requires Typed(v)
    ensures r == Print(v)
    decreases v, 1
  {
    match v
    case Scalar(vt, bits) => r := if vt == VT_EMPTY then Some([]) else PrintLeaf(vt, bits);
    case Str(u) => r := Some(u);
    case Missing(_) => r := None;
    case Strings(_, ss) =>
      if ss == [] { return None; }
      var t := Concatenate(ss);
      r := Some(t);
    case Vector(e, _, xs) =>
      if xs == [] { return None; }
      var ps := PrintNumbers(e, xs);
      if ps.None? { return None; }
      var t := Concatenate(ps.value);
      r := Some(t);
    case Nested(_, _) => r := ConvertArray(v);
  }

  /** The loop over an array of VARIANT. */
  method ConvertArray(v: Variant) returns (r: Option<Text>)
    requires v.Nested? && Typed(v)
    ensures r == Print(v)
    decreases v, 0
  {
    var vs := v.items;
    if vs == [] { return None; }
    var text: Text, len := [], 0;
    ghost var ps: seq<Text> := [];
    for i := 0 to |vs|
      invariant PrintItems(vs[..i]) == Some(ps)
      invariant text == (if i < |vs| then Before(ps) else Join(ps)) && len == |text| + i
    {
      var t := ConvertVariant2RacStr(vs[i]);
      if t.None? {
        ItemFails(vs, i);
        return None;
      }
      PrintNext(vs, i, ps, t.value);
      text, len := AppendItem(ps, text, len, TypeOf(vs[i]), t.value, i == |vs| - 1);
      ps := ps + [Item(TypeOf(vs[i]), t.value)];
    }
    assert vs[..|vs|] == vs;
    r := Some(text);
  }

  /** An element in brackets, its type first, and a comma unless it is the last: one realloc, four strcats. */
  method AppendItem(ghost ps: seq<Text>, text: Text, len: nat, vt: nat, t: Text, last: bool)
    returns (r: Text, len': nat)
    requires text == Before(ps) && len >= |text|
    ensures r == if last then Join(ps + [Item(vt, t)]) else Before(ps + [Item(vt, t)])
    ensures len' - |r| == len - |text| + 1
  {
    var chTmp := Decimal(vt) + [COMMA];
    var close := if last then [RPAREN] else [RPAREN, COMMA];
    JoinSnoc(ps, Item(vt, t), COMMA);
    len' := len + |chTmp| + |t| + (if last then 3 else 4);
    r := StrCat(text, [LPAREN], len');
    r := StrCat(r, chTmp, len');
    r := StrCat(r, t, len');
    r := StrCat(r, close, len');
    assert r == text + Item(vt, t) + if last then [] else [COMMA];
  }

  lemma PrintNext(vs: seq<Variant>, i: nat, ps: seq<Text>, t: Text)
    requires i < |vs| && (forall k :: 0 <= k < |vs| ==> Typed(vs[k]))
    requires PrintItems(vs[..i]) == Some(ps) && Print(vs[i]) == Some(t)
    ensures PrintItems(vs[..i + 1]) == Some(ps + [Item(TypeOf(vs[i]), t)])
  {
    assert vs[..i + 1][..i] == vs[..i];
  }

  // ----- walking the NUL-separated pieces -----

  lemma {:induction false} PiecesNoNul(ps: seq<Text>)
    requires NoNul(Join(ps))
    ensures forall i :: 0 <= i < |ps| ==> NoNul(ps[i])
  {
    if ps != [] {
      var front, last := ps[..|ps| - 1], ps[|ps| - 1];
      NoNulParts(Before(front), last);
      if front != [] {
        NoNulParts(Join(front), [COMMA]);
      }
      PiecesNoNul(front);
      assert ps == front + [last];
    }
  }

  lemma NoNulParts(x: Text, y: Text)
    ensures NoNul(x + y) ==> NoNul(x) && NoNul(y)
  {
    if NoNul(x + y) {
      assert NoNul((x + y)[..|x|]) && NoNul((x + y)[|x|..]);
      assert (x + y)[..|x|] == x && (x + y)[|x|..] == y;
    }
  }

  /** The buffer from piece i on. */
  function Cells(ps: seq<Text>, i: nat): seq<nat>
    requires i <= |ps|
    decreases |ps| - i
  {
    if i == |ps| then [] else ps[i] + [0] + Cells(ps, i + 1)
  }

  lemma BeforeSnoc(ps: seq<Text>, i: nat)
    requires i < |ps|
    ensures Before(ps[..i + 1], 0) == Before(ps[..i], 0) + ps[i] + [0]
  {
    assert ps[..i + 1] == ps[..i] + [ps[i]];
    JoinSnoc(ps[..i], ps[i], 0);
  }

  lemma {:induction false} CellsOf(ps: seq<Text>, i: nat)
    requires i <= |ps|
    ensures Before(ps[..i], 0) + Cells(ps, i) == Before(ps, 0)
    decreases |ps| - i
  {
    if i == |ps| {
      assert ps[..i] == ps;
    } else {
      CellsOf(ps, i + 1);
      BeforeSnoc(ps, i);
      Regroup(Before(ps[..i], 0), ps[i], Cells(ps, i + 1));
    }
  }

  lemma Regroup(before: seq<nat>, p: Text, next: seq<nat>)
    ensures before + (p + [0] + next) == before + p + [0] + next
  {
  }

  /** Position pos is where piece i starts. */
  predicate AtPiece(cells: seq<nat>, ps: seq<Text>, i: nat, pos: nat)
    requires i <= |ps|
  {
    pos <= |cells| && cells[pos..] == Cells(ps, i)
  }

  lemma FirstPiece(cells: seq<nat>, ps: seq<Text>)
    requires ps != [] && cells == Join(ps, 0) + [0]
    ensures AtPiece(cells, ps, 0, 0)
  {
    CellsOf(ps, 0);
    assert ps[..0] == [] && cells[0..] == cells;
  }

  lemma CellsAfter(cells: seq<nat>, pos: nat, p: Text, next: seq<nat>)
    requires pos <= |cells| && cells[pos..] == p + [0] + next
    ensures pos + |p| < |cells| && cells[pos..pos + |p|] == p && cells[pos + |p|] == 0
    ensures cells[pos + |p| + 1..] == next
  {
    assert cells[pos..][..|p|] == p && cells[pos..][|p|] == 0 && cells[pos..][|p| + 1..] == next;
  }

  /** strlen */
  method Length(cells: seq<nat>, pos: nat) returns (n: nat)
    requires exists k :: pos <= k < |cells| && cells[k] == 0
    ensures pos + n < |cells| && cells[pos + n] == 0
    ensures forall k :: pos <= k < pos + n ==> cells[k] != 0
  {
    n := 0;
    while cells[pos + n] != 0
      invariant pos + n < |cells| && forall k :: pos <= k < pos + n ==> cells[k] != 0
      decreases |cells| - pos - n
    {
      n := n + 1;
    }
  }

  // ----- parsing -----

  lemma NulStops(cells: seq<nat>, pos: nat, p: Text, n: nat)
    requires NoNul(p) && pos + |p| < |cells| && cells[pos..pos + |p|] == p && cells[pos + |p|] == 0
    requires pos + n < |cells| && cells[pos + n] == 0 && forall k :: pos <= k < pos + n ==> cells[k] != 0
    ensures n == |p|
  {
    forall k | pos <= k < pos + |p| ensures cells[k] != 0 {
      assert cells[pos..pos + |p|][k - pos] == p[k - pos];
    }
  }

  /** The piece that starts at pos, and the position after its NUL. */
  method TakePiece(cells: seq<nat>, pos: nat, ghost ps: seq<Text>, ghost i: nat) returns (p: Text, next: nat)
    requires i < |ps| && NoNul(ps[i]) && AtPiece(cells, ps, i, pos)
    ensures p == ps[i] && AtPiece(cells, ps, i + 1, next)
  {
    CellsAfter(cells, pos, ps[i], Cells(ps, i + 1));
    assert cells[pos + |ps[i]|] == 0;
    var n := Length(cells, pos);
    NulStops(cells, pos, ps[i], n);
    p, next := cells[pos..pos + n], pos + n + 1;
  }

  lemma {:induction false} LeafFails(e: nat, ps: seq<Text>, i: nat)
    requires i < |ps| && ParseLeaf(e, ps[i]).None?
    ensures ParseLeaves(e, ps) == None
  {
    if i < |ps| - 1 {
      LeafFails(e, ps[..|ps| - 1], i);
    }
  }

  lemma {:induction false} ItemsFail(qs: seq<Text>, bound: nat, i: nat)
    requires i < |qs| && (forall k :: 0 <= k < |qs| ==> |qs[k]| <= bound) && ParsedItem(qs[i]).None?
    ensures ParseItems(qs, bound) == None
  {
    if i < |qs| - 1 {
      ItemsFail(qs[..|qs| - 1], bound, i);
    }
  }

  lemma SplitParts(s: Text)
    requires NoNul(s) && Split(s).Some?
    ensures var ps := Split(s).value;
            ps != [] && forall i :: 0 <= i < |ps| ==> NoNul(ps[i]) && |ps[i]| <= |s|
  {
    SplitShorter(s);
    PiecesNoNul(Split(s).value);
  }

  lemma CellNoNul(q: Text)
    requires NoNul(q) && ParseItem(q).Some?
    ensures NoNul(ParseItem(q).value.text)
  {
  }

  lemma ParsedNext(e: nat, ps: seq<Text>, i: nat, xs: seq<nat>, x: nat)
    requires IntType(e) && i < |ps| && ParseLeaves(e, ps[..i]) == Some(xs) && ParseLeaf(e, ps[i]) == Some(x)
    ensures ParseLeaves(e, ps[..i + 1]) == Some(xs + [x])
  {
    assert ps[..i + 1][..i] == ps[..i];
  }

  method ParseNumbers(e: nat, cells: seq<nat>, count: nat, ghost ps: seq<Text>) returns (r: Option<seq<nat>>)
    requires IntType(e) && count == |ps| && (forall i :: 0 <= i < |ps| ==> NoNul(ps[i])) && AtPiece(cells, ps, 0, 0)
    ensures r == ParseLeaves(e, ps)
  {
    var xs: seq<nat> := [];
    var pos := 0;
    for i := 0 to count
      invariant AtPiece(cells, ps, i, pos) && ParseLeaves(e, ps[..i]) == Some(xs)
    {
      var p, next := TakePiece(cells, pos, ps, i);
      var x := ParseLeaf(e, p);
      if x.None? {
        LeafFails(e, ps, i);
        return None;
      }
      ParsedNext(e, ps, i, xs, x.value);
      xs, pos := xs + [x.value], next;
    }
    assert ps[..count] == ps;
    r := Some(xs);
  }

  method TakePieces(cells: seq<nat>, count: nat, ghost ps: seq<Text>) returns (r: seq<Text>)
    requires count == |ps| && (forall i :: 0 <= i < |ps| ==> NoNul(ps[i])) && AtPiece(cells, ps, 0, 0)
    ensures r == ps
  {
    r := [];
    var pos := 0;
    for i := 0 to count
      invariant AtPiece(cells, ps, i, pos) && r == ps[..i]
    {
      var p, next := TakePiece(cells, pos, ps, i);
      r, pos := r + [p], next;
    }
  }

  method ParseArray(cells: seq<nat>, count: nat, ghost ps: seq<Text>, ghost bound: nat)
    returns (r: Option<seq<Variant>>)
    requires count == |ps| && AtPiece(cells, ps, 0, 0)
    requires forall i :: 0 <= i < |ps| ==> NoNul(ps[i]) && |ps[i]| <= bound
    ensures r == ParseItems(ps, bound)
    decreases bound, 0
  {
    var vs: seq<Variant> := [];
    var pos := 0;
    for i := 0 to count
      invariant AtPiece(cells, ps, i, pos) && ParseItems(ps[..i], bound) == Some(vs)
    {
      var q, next := TakePiece(cells, pos, ps, i);
      var cell := ParseItem(q);
      var v: Option<Variant> := None;
      if cell.Some? {
        CellNoNul(q);
        v := ConvertRacStr2Variant(cell.value.vt, cell.value.text);
      }
      if v.None? {
        ItemsFail(ps, bound, i);
        return None;
      }
      assert ps[..i + 1][..i] == ps[..i];
      vs, pos := vs + [v.value], next;
    }
    assert ps[..count] == ps;
    r := Some(vs);
  }

  /** ConvertRacStr2Variant */
  method ConvertRacStr2Variant(vt: nat, s: Text) returns (r: Option<Variant>)
    requires NoNul(s)
    ensures r == Parse(vt, s)
    decreases |s|, 1
  {
    if vt == VT_BSTR { return Some(Str(s)); }
    var count, buf := SplitRacStr(s);
    if count < 0 { return None; }
    ghost var ps := Split(s).value;
    SplitParts(s);
    var cells := buf[..];
    FirstPiece(cells, ps);
    if vt == VT_VARIANT + VT_ARRAY {
      var vs := ParseArray(cells, count, ps, |s|);
      r := if vs.None? then None else Some(Nested(0, vs.value));
    } else if vt == VT_BSTR + VT_ARRAY {
      var ss := TakePieces(cells, count, ps);
      r := Some(Strings(0, ss));
    } else if IsArray(vt) {
      if !IntType(ElemType(vt)) { return None; }
      var xs := ParseNumbers(ElemType(vt), cells, count, ps);
      r := if xs.None? then None else Some(Vector(ElemType(vt), 0, xs.value));
    } else if count > 1 {
      r := None;
    } else {
      var p, _ := TakePiece(cells, 0, ps, 0);
      var bits := ParseLeaf(vt, p);
      r := if bits.None? then None else Some(Scalar(vt, bits.value));
    }
  }
}
