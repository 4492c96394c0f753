/** When RAC text brings a VARIANT back: an exact condition, checked by scanning brackets and commas. */
module RacRoundTrip {
  import opened Wire
  import opened Variants
  import opened RacText
  import opened RacNumber
  import opened RacValue

  /**
   * The values whose text parses to themselves: nonempty arrays, canonical leaves, no empty value, no comma
   * outside brackets in an element of a string array, and no array element whose text escapes its brackets.
   */
  ghost predicate RacOk(v: Variant)
    requires Typed(v)
  {
    match v
    case Scalar(vt, bits) => LeafOk(vt, bits)
    case Str(_) => true
    case Missing(_) => false
    case Vector(e, _, xs) => xs != [] && LeavesOk(e, xs)
    case Strings(_, ss) => ss != [] && AllPlain(ss)
    case Nested(_, vs) =>
      && vs != []
      && forall i :: 0 <= i < |vs| ==>
           RacOk(vs[i]) && Print(vs[i]).Some? && Plain(Item(TypeOf(vs[i]), Print(vs[i]).value))
  }

  predicate LeavesOk(e: nat, xs: seq<nat>)
  {
    forall i :: 0 <= i < |xs| ==> LeafOk(e, xs[i])
  }

  /** The printed value parses, at its own type, to the value with lower bounds 0. */
  ghost predicate ReadsBack(v: Variant)
    requires Typed(v)
  {
    Print(v).Some? && Parse(TypeOf(v), Print(v).value) == Some(Rebased(v, 0))
  }

  lemma TypeBound(v: Variant)
    requires Typed(v)
    ensures TypeOf(v) < U16
  {
  }

  lemma {:induction false} RebasedItem(vs: seq<Variant>, i: nat)
    requires i < |vs|
    ensures RebasedAll(vs, 0)[i] == Rebased(vs[i], 0)
  {
    if i < |vs| - 1 {
      RebasedItem(vs[..|vs| - 1], i);
    }
  }

  // ----- arrays of numbers -----

  lemma PrintedLeaf(e: nat, x: nat)
    requires IntType(e) && x < Pow256(Width(e))
    ensures NumberText(PrintLeaf(e, x).value) && Plain(PrintLeaf(e, x).value)
  {
    PrintedIsNumber(Negative(e, x), Size(e, x));
    NumberIsPlain(PrintLeaf(e, x).value);
  }

  lemma LeavesPrint(e: nat, xs: seq<nat>)
    requires forall i :: 0 <= i < |xs| ==> xs[i] < Pow256(ElemWidth(e))
    requires IntType(e)
    ensures PrintLeaves(e, xs).Some? && AllPlain(PrintLeaves(e, xs).value)
    ensures forall i :: 0 <= i < |xs| ==> NumberText(PrintLeaves(e, xs).value[i])
  {
    var ps := PrintLeaves(e, xs).value;
    forall i | 0 <= i < |xs| ensures Plain(ps[i]) && NumberText(ps[i]) {
      PrintedLeaf(e, xs[i]);
    }
  }

  lemma LeafParses(e: nat, xs: seq<nat>, ps: seq<Text>, i: nat)
    requires forall k :: 0 <= k < |xs| ==> xs[k] < Pow256(ElemWidth(e))
    requires IntType(e) && PrintLeaves(e, xs) == Some(ps) && i < |xs|
    ensures ParseLeaf(e, ps[i]) == Some(xs[i]) <==> LeafOk(e, xs[i])
  {
    assert Some(ps[i]) == PrintLeaf(e, xs[i]);
    LeafRoundTrip(e, xs[i]);
  }

  lemma ParsedLeaves(e: nat, ps: seq<Text>, xs: seq<nat>)
    requires IntType(e) && |ps| == |xs|
    requires forall i :: 0 <= i < |xs| ==> ParseLeaf(e, ps[i]) == Some(xs[i])
    ensures ParseLeaves(e, ps) == Some(xs)
  {
    AllLeavesParse(e, ps);
    var r := ParseLeaves(e, ps);
    forall i | 0 <= i < |xs| ensures r.value[i] == xs[i] {
      ParsedLeafAt(e, ps, i);
    }
    assert r.value == xs;
  }

  lemma LeavesParse(e: nat, xs: seq<nat>, ps: seq<Text>)
    requires forall i :: 0 <= i < |xs| ==> xs[i] < Pow256(ElemWidth(e))
    requires IntType(e) && PrintLeaves(e, xs) == Some(ps)
    ensures ParseLeaves(e, ps) == Some(xs) <==> LeavesOk(e, xs)
  {
    if LeavesOk(e, xs) {
      forall i | 0 <= i < |xs| ensures ParseLeaf(e, ps[i]) == Some(xs[i]) {
        LeafParses(e, xs, ps, i);
      }
      ParsedLeaves(e, ps, xs);
    }
    if ParseLeaves(e, ps) == Some(xs) {
      forall i | 0 <= i < |xs| ensures LeafOk(e, xs[i]) {
        ParsedLeafAt(e, ps, i);
        LeafParses(e, xs, ps, i);
      }
    }
  }

  lemma ArrayType(e: nat)
    requires !IsArray(e)
    ensures IsArray(e + VT_ARRAY) && ElemType(e + VT_ARRAY) == e
  {
  }

  lemma VectorParse(e: nat, t: Text, ps: seq<Text>)
    requires Split(t) == Some(ps) && ElemWidth(e) > 0 && e + VT_ARRAY < U16 && !IsArray(e)
    ensures Parse(e + VT_ARRAY, t) ==
      match ParseLeaves(e, ps) case None => None case Some(xs) => Some(Vector(e, 0, xs))
  {
    ArrayType(e);
  }

  lemma PlainSplits(t: Text)
    requires Plain(t)
    ensures Split(t) == Some([t])
  {
    assert Pieces(Scan(0, [], t)) == [t];
  }

  lemma ScalarReadsBack(v: Variant)
    requires v.Scalar? && Typed(v)
    ensures ReadsBack(v) <==> RacOk(v)
  {
    if IntType(v.vt) {
      PrintedLeaf(v.vt, v.bits);
      PlainSplits(Print(v).value);
      LeafRoundTrip(v.vt, v.bits);
    }
  }

  lemma VectorReadsBack(v: Variant)
    requires v.Vector? && Typed(v) && v.elems != []
    ensures ReadsBack(v) <==> RacOk(v)
  {
    if IntType(v.elemVt) {
      LeavesPrint(v.elemVt, v.elems);
      var ps := PrintLeaves(v.elemVt, v.elems).value;
      SplitInvertsJoin(ps);
      LeavesParse(v.elemVt, v.elems, ps);
      VectorParse(v.elemVt, Join(ps), ps);
    } else {
      assert PrintLeaves(v.elemVt, v.elems).None?;
      assert !LeafOk(v.elemVt, v.elems[0]);
    }
  }

  lemma StringsReadBack(v: Variant)
    requires v.Strings? && Typed(v)
    ensures ReadsBack(v) <==> RacOk(v)
  {
    if v.strs != [] {
      SplitInvertsJoin(v.strs);
    }
  }

  // ----- arrays of VARIANT: sufficiency -----

  lemma {:induction false} AllItemsParse(qs: seq<Text>, bound: nat)
    requires forall i :: 0 <= i < |qs| ==> |qs[i]| <= bound && ParsedItem(qs[i]).Some?
    ensures ParseItems(qs, bound).Some?
  {
    if qs != [] {
      AllItemsParse(qs[..|qs| - 1], bound);
    }
  }

  lemma ItemsParseTo(qs: seq<Text>, bound: nat, vs: seq<Variant>)
    requires |qs| == |vs| && forall i :: 0 <= i < |qs| ==> |qs[i]| <= bound && ParsedItem(qs[i]) == Some(vs[i])
    ensures ParseItems(qs, bound) == Some(vs)
  {
    AllItemsParse(qs, bound);
    var r := ParseItems(qs, bound).value;
    forall i | 0 <= i < |vs| ensures r[i] == vs[i] {
      ParsedAt(qs, bound, i);
    }
    assert r == vs;
  }

  lemma NestedParse(s: Text, ps: seq<Text>, vs: seq<Variant>)
    requires Split(s) == Some(ps) && (forall i :: 0 <= i < |ps| ==> |ps[i]| <= |s|)
    requires ParseItems(ps, |s|) == Some(vs)
    ensures Parse(VT_VARIANT + VT_ARRAY, s) == Some(Nested(0, vs))
  {
  }

  lemma NestedFromPieces(s: Text, ps: seq<Text>, vs: seq<Variant>)
    requires Split(s) == Some(ps) && |ps| == |vs|
    requires forall i :: 0 <= i < |ps| ==> ParsedItem(ps[i]) == Some(vs[i])
    ensures Parse(VT_VARIANT + VT_ARRAY, s) == Some(Nested(0, vs))
  {
    SplitShorter(s);
    ItemsParseTo(ps, |s|, vs);
    NestedParse(s, ps, vs);
  }

  lemma {:induction false} Sufficient(v: Variant)
    requires Typed(v) && RacOk(v)
    ensures ReadsBack(v)
  {
    match v
    case Scalar(_, _) => ScalarReadsBack(v);
    case Str(_) =>
    case Vector(_, _, _) => VectorReadsBack(v);
    case Strings(_, _) => StringsReadBack(v);
    case Nested(_, vs) =>
      PrintedAll(vs);
      var ps := PrintItems(vs).value;
      var rs := RebasedAll(vs, 0);
      forall i | 0 <= i < |vs| ensures Plain(ps[i]) && ParsedItem(ps[i]) == Some(rs[i]) {
        PrintedItem(vs, i);
        Sufficient(vs[i]);
        TypeBound(vs[i]);
        ItemParses(TypeOf(vs[i]), Print(vs[i]).value);
        RebasedItem(vs, i);
      }
      SplitInvertsJoin(ps);
      NestedFromPieces(Join(ps), ps, rs);
  }

  // ----- arrays of VARIANT: necessity -----

  /** The texts agree as far as both go. */
  predicate Agree(x: Text, y: Text)
  {
    forall i :: 0 <= i < |x| && i < |y| ==> x[i] == y[i]
  }

  lemma AgreeTail(lead: Text, x: Text, y: Text)
    requires Agree(lead + x, lead + y)
    ensures Agree(x, y)
  {
    forall i | 0 <= i < |x| && i < |y| ensures x[i] == y[i] {
      assert (lead + x)[|lead| + i] == x[i] && (lead + y)[|lead| + i] == y[i];
    }
  }

  lemma AgreeHead(x: Text, y: Text, moreX: Text, moreY: Text)
    requires Agree(x + moreX, y + moreY)
    ensures Agree(x, y)
  {
    forall i | 0 <= i < |x| && i < |y| ensures x[i] == y[i] {
      assert (x + moreX)[i] == x[i] && (y + moreY)[i] == y[i];
    }
  }

  function Closed(s: Text): Text
  {
    s + [RPAREN]
  }

  predicate NoBrackets(t: Text)
  {
    forall i :: 0 <= i < |t| ==> t[i] != LPAREN && t[i] != RPAREN
  }

  lemma {:induction false} ScanFlat(t: Text)
    requires NoBrackets(t)
    ensures var c := ScanFrom(START, t); c.Scan? && c.depth == 0
  {
    if t != [] {
      ScanFlat(t[..|t| - 1]);
    }
  }

  lemma ClosedFlat(t: Text, s: Text)
    requires NoBrackets(t) && |t| < |s| && s[..|t|] == t && s[|t|] == RPAREN
    ensures Split(s) == None
  {
    var rest := s[|t| + 1..];
    ScanFlat(t);
    ScanNext(START, t, RPAREN, Bad, rest);
    BadStays(rest);
    assert s == t + [RPAREN] + rest;
  }

  /** Where one of two closed texts ends, the other has its closing bracket. */
  lemma ClosedAgree(s: Text, t: Text)
    requires Agree(Closed(s), Closed(t))
    ensures |s| < |t| ==> t[|s|] == RPAREN
    ensures |t| < |s| ==> s[|t|] == RPAREN
    ensures |t| <= |s| ==> s[..|t|] == t
  {
    assert |s| < |t| ==> Closed(s)[|s|] == Closed(t)[|s|];
    assert |t| < |s| ==> Closed(s)[|t|] == Closed(t)[|t|];
    if |t| <= |s| {
      forall i | 0 <= i < |t| ensures s[i] == t[i] {
        assert Closed(s)[i] == Closed(t)[i];
      }
    }
  }

  /** A splittable text that agrees with a bracket-free one, up to a closing bracket, is that text. */
  lemma FlatRigid(t: Text, s: Text)
    requires NoBrackets(t) && Split(s).Some? && Agree(Closed(s), Closed(t))
    ensures s == t
  {
    ClosedAgree(s, t);
    if |t| < |s| {
      ClosedFlat(t, s);
    }
  }

  // ----- a printed element and an element that parses to the same value -----

  lemma InsideFirst(q: Text)
    requires q != [] && q[0] == LPAREN && Inside(q).Some?
    ensures var body := Inside(q).value;
            |body| + 2 <= |q| && q[1..|body| + 1] == body && q[|body| + 1] == RPAREN
            && AllSpaces(q[|body| + 2..])
  {
    var rest := q[1..];
    FirstIs(q, LPAREN, 0);
    var b := Last(rest, RPAREN);
    assert rest[b + 1..] == q[b + 2..];
    assert rest[..b] == q[1..b + 1];
  }

  lemma SameComma(x: Text, y: Text, c: nat, d: nat)
    requires Agree(x, y) && c < |x| && d < |y| && x[c] == COMMA && y[d] == COMMA
    requires (forall i :: 0 <= i < c ==> x[i] != COMMA) && (forall i :: 0 <= i < d ==> y[i] != COMMA)
    ensures c == d
  {
  }

  lemma AgreePrefix(x: Text, y: Text, n: nat)
    requires Agree(x, y) && n <= |x| && n <= |y|
    ensures x[..n] == y[..n]
  {
  }

  /** A body that agrees with a printed one names the same type in the same digits. */
  lemma CommaRigid(d: Text, t: Text, body: Text, moreBody: Text, moreT: Text)
    requires IsDecimal(d) && ParseBody(body).Some?
    requires Agree(body + moreBody, d + [COMMA] + t + moreT)
    ensures body == d + [COMMA] + ParseBody(body).value.text
  {
    var c := IndexOf(body, COMMA);
    var x, y := body + moreBody, d + [COMMA] + t + moreT;
    SameComma(x, y, c, |d|);
    AgreePrefix(x, y, c);
    assert x[..c] == body[..c] && y[..c] == d;
    assert body == body[..c] + [body[c]] + body[c + 1..];
  }

  lemma SpacesRigid(spaces: Text, f: nat)
    requires AllSpaces(spaces) && f != SPACE && Agree(spaces + [f], [f])
    ensures spaces == []
  {
    assert (spaces + [f])[0] == [f][0];
  }

  /** An element that agrees with a printed one, up to the character that follows both. */
  lemma ItemRigid(d: Text, t: Text, q: Text, f: nat)
    requires IsDecimal(d) && f != SPACE && ParseItem(q).Some?
    requires Agree(q + [f], Bracketed(d + [COMMA] + t) + [f])
    ensures var s := ParseItem(q).value.text;
            Agree(Closed(s), Closed(t)) && (s == t ==> q == Bracketed(d + [COMMA] + t))
  {
    var s := ParseItem(q).value.text;
    var body := Inside(q).value;
    var p := Bracketed(d + [COMMA] + t);
    assert (q + [f])[0] == q[0] && (p + [f])[0] == LPAREN;
    InsideFirst(q);
    var spaces := q[|body| + 2..];
    assert q == Bracketed(body) + spaces;
    ItemBodies(d, t, body, spaces, f);
    if s == t {
      assert p == Bracketed(body);
      assert q + [f] == p + (spaces + [f]);
      AgreeTail(p, spaces + [f], [f]);
      SpacesRigid(spaces, f);
    }
  }

  lemma ItemBodies(d: Text, t: Text, body: Text, spaces: Text, f: nat)
    requires IsDecimal(d) && ParseBody(body).Some?
    requires Agree(Bracketed(body) + spaces + [f], Bracketed(d + [COMMA] + t) + [f])
    ensures var s := ParseBody(body).value.text;
            body == d + [COMMA] + s && Agree(Closed(s), Closed(t))
  {
    var moreBody, moreT := [RPAREN] + (spaces + [f]), [RPAREN] + [f];
    assert Bracketed(body) + spaces + [f] == [LPAREN] + (body + moreBody);
    assert Bracketed(d + [COMMA] + t) + [f] == [LPAREN] + (d + [COMMA] + t + moreT);
    AgreeTail([LPAREN], body + moreBody, d + [COMMA] + t + moreT);
    CommaRigid(d, t, body, moreBody, moreT);
    var s := ParseBody(body).value.text;
    TextsAgree(d + [COMMA], s, t, spaces + [f], [f]);
  }

  lemma TextsAgree(lead: Text, s: Text, t: Text, moreS: Text, moreT: Text)
    requires Agree(lead + s + ([RPAREN] + moreS), lead + t + ([RPAREN] + moreT))
    ensures Agree(Closed(s), Closed(t))
  {
    assert lead + s + ([RPAREN] + moreS) == lead + (Closed(s) + moreS);
    assert lead + t + ([RPAREN] + moreT) == lead + (Closed(t) + moreT);
    AgreeTail(lead, Closed(s) + moreS, Closed(t) + moreT);
    AgreeHead(Closed(s), Closed(t), moreS, moreT);
  }

  // ----- the pieces of two joined texts -----

  /** The character after piece i: a comma, or the given one after the last piece. */
  function Follow(count: nat, i: nat, end: nat): nat
  {
    if i + 1 < count then COMMA else end
  }

  lemma {:induction false} JoinAt(ps: seq<Text>, i: nat, end: nat) returns (rest: Text)
    requires i < |ps|
    ensures Join(ps) + [end] == Before(ps[..i]) + (ps[i] + [Follow(|ps|, i, end)] + rest)
  {
    var front, p := ps[..|ps| - 1], ps[|ps| - 1];
    if i == |ps| - 1 {
      rest := [];
    } else {
      var inner := JoinAt(front, i, COMMA);
      rest := inner + p + [end];
      assert front[..i] == ps[..i];
      assert Join(ps) == Join(front) + [COMMA] + p;
    }
  }

  lemma PiecesAgree(ps: seq<Text>, qs: seq<Text>, i: nat, end: nat)
    requires |ps| == |qs| && i < |ps| && qs[..i] == ps[..i]
    requires Agree(Join(qs) + [end], Join(ps) + [end])
    ensures var f := Follow(|ps|, i, end); Agree(qs[i] + [f], ps[i] + [f])
  {
    var f := Follow(|ps|, i, end);
    var moreP := JoinAt(ps, i, end);
    var moreQ := JoinAt(qs, i, end);
    AgreeTail(Before(ps[..i]), qs[i] + [f] + moreQ, ps[i] + [f] + moreP);
    AgreeHead(qs[i] + [f], ps[i] + [f], moreQ, moreP);
  }

  // ----- a text is the only one that parses to its value where it stands -----

  lemma {:induction false} JoinNoBrackets(ps: seq<Text>)
    requires forall i :: 0 <= i < |ps| ==> NumberText(ps[i])
    ensures NoBrackets(Join(ps))
  {
    if |ps| > 1 {
      JoinNoBrackets(ps[..|ps| - 1]);
    }
  }

  lemma ParsedNested(s: Text, vs: seq<Variant>)
    requires Parse(VT_VARIANT + VT_ARRAY, s) == Some(Nested(0, vs))
    ensures Split(s).Some? && |Split(s).value| == |vs| && Join(Split(s).value) == s
    ensures forall i :: 0 <= i < |vs| ==> ParsedItem(Split(s).value[i]) == Some(vs[i])
  {
    SplitShorter(s);
    var qs := Split(s).value;
    forall i | 0 <= i < |vs| ensures ParsedItem(qs[i]) == Some(vs[i]) {
      ParsedAt(qs, |s|, i);
    }
  }

  lemma ParsedSplits(vt: nat, s: Text)
    requires Parse(vt, s).Some? && vt != VT_BSTR
    ensures Split(s).Some?
  {
  }

  lemma RigidScalar(v: Variant, s: Text)
    requires v.Scalar? && Typed(v) && Print(v).Some? && Split(s).Some?
    requires Agree(Closed(s), Closed(Print(v).value))
    ensures s == Print(v).value
  {
    if IntType(v.vt) {
      PrintedLeaf(v.vt, v.bits);
    }
    FlatRigid(Print(v).value, s);
  }

  lemma RigidVector(v: Variant, s: Text)
    requires v.Vector? && Typed(v) && Print(v).Some? && Split(s).Some?
    requires Agree(Closed(s), Closed(Print(v).value))
    ensures s == Print(v).value
  {
    var ps := PrintLeaves(v.elemVt, v.elems).value;
    assert IntType(v.elemVt) by {
      assert Some(ps[0]) == PrintLeaf(v.elemVt, v.elems[0]);
    }
    LeavesPrint(v.elemVt, v.elems);
    JoinNoBrackets(ps);
    FlatRigid(Print(v).value, s);
  }

  /** Whatever stands in the place of the printed text and parses to the same value is the printed text. */
  lemma {:induction false} Rigid(v: Variant, s: Text)
    requires Typed(v) && Print(v).Some? && Parse(TypeOf(v), s) == Some(Rebased(v, 0))
    requires Agree(Closed(s), Closed(Print(v).value))
    ensures s == Print(v).value
    decreases v, 1, 0
  {
    if v.Scalar? {
      ParsedSplits(v.vt, s);
      RigidScalar(v, s);
    } else if v.Vector? {
      ParsedSplits(TypeOf(v), s);
      RigidVector(v, s);
    } else if v.Strings? {
      SplitShorter(s);
    } else if v.Nested? {
      RigidNested(v, s);
    }
  }

  lemma {:induction false} RigidNested(v: Variant, s: Text)
    requires v.Nested? && Typed(v) && Print(v).Some?
    requires Parse(VT_VARIANT + VT_ARRAY, s) == Some(Nested(0, RebasedAll(v.items, 0)))
    requires Agree(Closed(s), Closed(Print(v).value))
    ensures s == Print(v).value
    decreases v, 0, |v.items| + 1
  {
    var ps, qs := PrintItems(v.items).value, Split(s).value;
    ParsedNested(s, RebasedAll(v.items, 0));
    RigidItems(v.items, v, ps, qs, RPAREN, |ps|);
    WholePrefix(ps, qs);
  }

  lemma {:induction false} RigidItem(v: Variant, q: Text, f: nat)
    requires Typed(v) && Print(v).Some? && f != SPACE
    requires ParsedItem(q) == Some(Rebased(v, 0))
    requires Agree(q + [f], Item(TypeOf(v), Print(v).value) + [f])
    ensures q == Item(TypeOf(v), Print(v).value)
    decreases v, 2, 0
  {
    ItemRigid(Decimal(TypeOf(v)), Print(v).value, q, f);
    Rigid(v, ParseItem(q).value.text);
  }

  lemma {:induction false} RigidItems(vs: seq<Variant>, v: Variant, ps: seq<Text>, qs: seq<Text>, end: nat, k: nat)
    requires v.Nested? && vs == v.items && (forall i :: 0 <= i < |vs| ==> Typed(vs[i]))
    requires PrintItems(vs) == Some(ps) && |qs| == |vs| && k <= |qs| && end != SPACE
    requires forall i :: 0 <= i < |qs| ==> ParsedItem(qs[i]) == Some(RebasedAll(vs, 0)[i])
    requires Agree(Join(qs) + [end], Join(ps) + [end])
    ensures qs[..k] == ps[..k]
    decreases v, 0, k
  {
    if k > 0 {
      RigidItems(vs, v, ps, qs, end, k - 1);
      RigidAt(vs, v, ps, qs, end, k - 1);
      PrefixSnoc(ps, qs, k - 1);
    }
  }

  lemma WholePrefix(ps: seq<Text>, qs: seq<Text>)
    requires |qs| == |ps| && qs[..|ps|] == ps[..|ps|]
    ensures qs == ps
  {
    assert qs == qs[..|ps|] && ps == ps[..|ps|];
  }

  lemma PrefixSnoc(ps: seq<Text>, qs: seq<Text>, i: nat)
    requires i < |ps| && i < |qs| && qs[..i] == ps[..i] && qs[i] == ps[i]
    ensures qs[..i + 1] == ps[..i + 1]
  {
    assert qs[..i + 1] == qs[..i] + [qs[i]] && ps[..i + 1] == ps[..i] + [ps[i]];
  }

  lemma {:induction false} RigidAt(vs: seq<Variant>, v: Variant, ps: seq<Text>, qs: seq<Text>, end: nat, i: nat)
    requires v.Nested? && vs == v.items && (forall k :: 0 <= k < |vs| ==> Typed(vs[k]))
    requires PrintItems(vs) == Some(ps) && |qs| == |vs| && i < |qs| && end != SPACE
    requires ParsedItem(qs[i]) == Some(RebasedAll(vs, 0)[i]) && qs[..i] == ps[..i]
    requires Agree(Join(qs) + [end], Join(ps) + [end])
    ensures qs[i] == ps[i]
    decreases v, 0, i
  {
    PiecesAgree(ps, qs, i, end);
    PrintedItem(vs, i);
    RebasedItem(vs, i);
    RigidItem(vs[i], qs[i], Follow(|ps|, i, end));
  }

  lemma NestedPieces(v: Variant, ps: seq<Text>)
    requires v.Nested? && Typed(v) && ReadsBack(v) && PrintItems(v.items) == Some(ps)
    ensures Split(Join(ps)) == Some(ps) && AllPlain(ps)
    ensures forall i :: 0 <= i < |ps| ==> ParsedItem(ps[i]) == Some(RebasedAll(v.items, 0)[i])
  {
    var t := Join(ps);
    ParsedNested(t, RebasedAll(v.items, 0));
    var qs := Split(t).value;
    RigidItems(v.items, v, ps, qs, COMMA, |ps|);
    WholePrefix(ps, qs);
    PiecesPlain(t);
  }

  lemma ItemReadsBack(v: Variant, p: Text)
    requires Typed(v) && Print(v).Some? && p == Item(TypeOf(v), Print(v).value)
    requires ParsedItem(p) == Some(Rebased(v, 0))
    ensures ReadsBack(v)
  {
    TypeBound(v);
    ItemParses(TypeOf(v), Print(v).value);
  }

  lemma {:induction false} Necessary(v: Variant)
    requires Typed(v) && ReadsBack(v)
    ensures RacOk(v)
  {
    match v
    case Scalar(_, _) => ScalarReadsBack(v);
    case Str(_) =>
    case Vector(_, _, _) => VectorReadsBack(v);
    case Strings(_, _) => StringsReadBack(v);
    case Nested(_, vs) =>
      var ps := PrintItems(vs).value;
      NestedPieces(v, ps);
      forall i | 0 <= i < |vs|
        ensures RacOk(vs[i]) && Print(vs[i]).Some? && Plain(Item(TypeOf(vs[i]), Print(vs[i]).value))
      {
        PrintedItem(vs, i);
        RebasedItem(vs, i);
        ItemReadsBack(vs[i], ps[i]);
        Necessary(vs[i]);
      }
  }

  predicate FloatType(vt: nat)
  {
    vt in {VT_R4, VT_R8, VT_DATE}
  }

  /** No floating-point number or date is printed: their texts are not modelled. */
  ghost predicate NoFloats(v: Variant)
  {
    match v
    case Scalar(vt, _) => !FloatType(vt)
    case Vector(e, _, xs) => xs == [] || !FloatType(e)
    case Nested(_, vs) => forall i :: 0 <= i < |vs| ==> NoFloats(vs[i])
    case _ => true
  }

  /** The exact condition: a value survives its text form if and only if it is RacOk. */
  lemma ReadsBackExactly(v: Variant)
    requires Typed(v) && NoFloats(v)
    ensures ReadsBack(v) <==> RacOk(v)
  {
    if RacOk(v) {
      Sufficient(v);
    }
    if ReadsBack(v) {
      Necessary(v);
    }
  }

  // "a,b"
  const WITH_COMMA: Text := [97, COMMA, 98]

  /** A string array whose one element holds a comma comes back as an array of two. */
  lemma CommaSplits(v: Variant, t: Text)
    requires t == WITH_COMMA && v == Strings(0, [t])
    ensures Print(v) == Some(t) && Parse(TypeOf(v), t) == Some(Strings(0, [[97], [98]]))
    ensures Typed(v) && !ReadsBack(v)
  {
    assert Join([t]) == t;
    ScanAll(t);
    assert Pieces(Scan(0, [[97]], [98])) == [[97], [98]];
  }

  lemma ScanAll(t: Text)
    requires t == WITH_COMMA
    ensures ScanFrom(START, t) == Scan(0, [[97]], [98])
  {
    assert t[..2] == [97, COMMA] && t[..2][..1] == [97] && [97][..0] == [];
    assert ScanFrom(START, [97]) == Scan(0, [], [97]);
    assert ScanFrom(START, t[..2]) == Scan(0, [[97]], []);
  }

  // ----- well-nested brackets are enough -----

  lemma StepDeeper(x: Text, t: Text, c: Scan, ch: nat)
    requires c.Scan? && Step(c, ch).Scan?
    ensures Step(Scan(c.depth + 1, [], x + t), ch) == Scan(Step(c, ch).depth + 1, [], x + (t + [ch]))
  {
    assert x + (t + [ch]) == x + t + [ch];
  }

  /** Within brackets nothing splits: the scan of t, one level deeper and after x. */
  lemma {:induction false} ScanDeeper(x: Text, t: Text)
    requires ScanFrom(START, t).Scan?
    ensures ScanFrom(Scan(1, [], x), t) == Scan(ScanFrom(START, t).depth + 1, [], x + t)
  {
    if t == [] {
      assert x + t == x;
    } else {
      var u, ch := t[..|t| - 1], t[|t| - 1];
      ScanDeeper(x, u);
      StepDeeper(x, u, ScanFrom(START, u), ch);
      assert t == u + [ch];
    }
  }

  lemma BracketedIsPlain(body: Text)
    requires Split(body).Some?
    ensures Plain(Bracketed(body))
  {
    ScanSnoc(START, [], LPAREN);
    assert [] + [LPAREN] == [LPAREN];
    ScanDeeper([LPAREN], body);
    ScanNext(START, [], LPAREN, Scan(1, [], [LPAREN]), body);
    ScanSnoc(START, [LPAREN] + body, RPAREN);
  }

  lemma ItemIsPlain(vt: nat, t: Text)
    requires Split(t).Some?
    ensures Plain(Item(vt, t))
  {
    var d := Decimal(vt);
    NumberIsPlain(d);
    ScanAfter([d], t);
    ScanNext(START, d, COMMA, Scan(0, [d], []), t);
    BracketedIsPlain(d + [COMMA] + t);
  }

  /** A condition on the value alone: brackets match in every string, and so on at every depth. */
  ghost predicate WellNested(v: Variant)
    requires Typed(v)
  {
    match v
    case Scalar(vt, bits) => LeafOk(vt, bits)
    case Str(u) => Split(u).Some?
    case Missing(_) => false
    case Vector(e, _, xs) => xs != [] && LeavesOk(e, xs)
    case Strings(_, ss) => ss != [] && AllPlain(ss)
    case Nested(_, vs) => vs != [] && forall i :: 0 <= i < |vs| ==> WellNested(vs[i])
  }

  lemma {:induction false} WellNestedReadsBack(v: Variant)
    requires Typed(v) && WellNested(v)
    ensures RacOk(v) && ReadsBack(v) && Split(Print(v).value).Some?
  {
    if v.Nested? {
      var vs := v.items;
      forall i | 0 <= i < |vs|
        ensures RacOk(vs[i]) && Print(vs[i]).Some? && Plain(Item(TypeOf(vs[i]), Print(vs[i]).value))
      {
        WellNestedReadsBack(vs[i]);
        ItemIsPlain(TypeOf(vs[i]), Print(vs[i]).value);
      }
    }
    Sufficient(v);
    if !v.Str? {
      ParsedSplits(TypeOf(v), Print(v).value);
    }
  }
}
