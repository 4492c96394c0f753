/** Printing VARIANT values as RAC text and parsing it back (rac_string.c). */
module RacValue {
  import opened Wire
  import opened Variants
  import opened RacText
  import opened RacNumber

  // ----- one element of an array of VARIANT: "(type,text)" -----

  datatype Cell = Cell(vt: nat, text: Text)

  function Item(vt: nat, t: Text): Text
  {
    Bracketed(Decimal(vt) + [COMMA] + t)
  }

  function Bracketed(body: Text): Text
  {
    [LPAREN] + body + [RPAREN]
  }

  /** strrchr; -1 when the character does not occur */
  function Last(s: Text, ch: nat): (i: int)
    ensures -1 <= i < |s| && (i >= 0 ==> s[i] == ch)
    ensures forall j :: 0 <= i < j < |s| || i < 0 <= j < |s| ==> s[j] != ch
  {
    if s == [] then -1 else if s[|s| - 1] == ch then |s| - 1 else Last(s[..|s| - 1], ch)
  }

  predicate AllSpaces(s: Text)
  {
    forall i :: 0 <= i < |s| ==> s[i] == SPACE
  }

  predicate DigitsAndSpaces(s: Text)
  {
    forall i :: 0 <= i < |s| ==> s[i] == SPACE || 48 <= s[i] <= 57
  }

  function SkipSpaces(s: Text): Text
  {
    if s == [] || s[0] != SPACE then s else SkipSpaces(s[1..])
  }

  /** atoi of a text of digits and spaces, passed as uint16_t */
  function TypeNumber(s: Text): (n: nat)
    ensures n < U16
  {
    var t := SkipSpaces(s);
    Digits(t[..Run(t, 10)], 10) % U16
  }

  /** What stands between the first '(' and the last ')', with only spaces outside them. */
  function Inside(q: Text): (r: Option<Text>)
    ensures r.Some? ==> |r.value| < |q|
  {
    var a := IndexOf(q, LPAREN);
    if a == |q| || !AllSpaces(q[..a]) then None
    else
      var rest := q[a + 1..];
      var b := Last(rest, RPAREN);
      if b < 0 || !AllSpaces(rest[b + 1..]) then None else Some(rest[..b])
  }

  /** The type before the first ',' and the text after it. */
  function ParseBody(body: Text): (r: Option<Cell>)
    ensures r.Some? ==> |r.value.text| < |body|
  {
    var c := IndexOf(body, COMMA);
    if c == |body| || !DigitsAndSpaces(body[..c]) then None
    else Some(Cell(TypeNumber(body[..c]), body[c + 1..]))
  }

  function ParseItem(q: Text): (r: Option<Cell>)
    ensures r.Some? ==> |r.value.text| < |q|
  {
    match Inside(q)
    case None => None
    case Some(body) => ParseBody(body)
  }

  // ----- printing -----

  /** ConvertVariant2RacStr; None stands for an error or for the NULL text of an empty array. */
  ghost function Print(v: Variant): (r: Option<Text>)
    requires Typed(v)
  {
    match v
    case Scalar(vt, bits) => if vt == VT_EMPTY then Some([]) else PrintLeaf(vt, bits)
    case Str(u) => Some(u)
    case Missing(_) => None
    case Strings(_, ss) => if ss == [] then None else Some(Join(ss))
    case Vector(e, _, xs) =>
      var ps := PrintLeaves(e, xs);
      if xs == [] || ps.None? then None else Some(Join(ps.value))
    case Nested(_, vs) =>
      var ps := PrintItems(vs);
      if vs == [] || ps.None? then None else Some(Join(ps.value))
  }

  function PrintLeaves(e: nat, xs: seq<nat>): (r: Option<seq<Text>>)
    requires forall i :: 0 <= i < |xs| ==> xs[i] < Pow256(ElemWidth(e))
    ensures r.Some? ==> |r.value| == |xs|
    ensures r.Some? ==> forall i :: 0 <= i < |xs| ==> IntType(e) && Some(r.value[i]) == PrintLeaf(e, xs[i])
    ensures r.None? ==> !IntType(e)
  {
    if xs == [] then Some([])
    else
      var front := PrintLeaves(e, xs[..|xs| - 1]);
      var last := PrintLeaf(e, xs[|xs| - 1]);
      if front.None? || last.None? then None else Some(front.value + [last.value])
  }

  ghost function PrintItems(vs: seq<Variant>): (r: Option<seq<Text>>)
    requires forall i :: 0 <= i < |vs| ==> Typed(vs[i])
    ensures r.Some? ==> |r.value| == |vs|
  {
    if vs == [] then Some([])
    else
      var v := vs[|vs| - 1];
      var front := PrintItems(vs[..|vs| - 1]);
      var last := Print(v);
      if front.None? || last.None? then None else Some(front.value + [Item(TypeOf(v), last.value)])
  }

  lemma {:induction false} PrintedItem(vs: seq<Variant>, i: nat)
    requires i < |vs| && (forall k :: 0 <= k < |vs| ==> Typed(vs[k])) && PrintItems(vs).Some?
    ensures Print(vs[i]).Some? && PrintItems(vs).value[i] == Item(TypeOf(vs[i]), Print(vs[i]).value)
  {
    if i < |vs| - 1 {
      PrintedItem(vs[..|vs| - 1], i);
    }
  }

  lemma {:induction false} PrintedAll(vs: seq<Variant>)
    requires forall k :: 0 <= k < |vs| ==> Typed(vs[k]) && Print(vs[k]).Some?
    ensures PrintItems(vs).Some?
  {
    if vs != [] {
      PrintedAll(vs[..|vs| - 1]);
    }
  }

  // ----- parsing -----

  lemma {:induction false} PiecesShorter(ps: seq<Text>)
    ensures forall i :: 0 <= i < |ps| ==> |ps[i]| <= |Join(ps)|
  {
    if |ps| > 1 {
      PiecesShorter(ps[..|ps| - 1]);
    }
  }

  lemma SplitShorter(s: Text)
    ensures Split(s).Some? ==>
      Split(s).value != [] && Join(Split(s).value) == s
      && forall i :: 0 <= i < |Split(s).value| ==> |Split(s).value[i]| <= |s|
  {
    JoinOfPieces(s);
    if Split(s).Some? {
      PiecesShorter(Split(s).value);
    }
  }

  /** ConvertRacStr2Variant; arrays are created with lower bound 0. */
  function Parse(vt: nat, s: Text): (r: Option<Variant>)
    ensures r.Some? ==> TypeOf(r.value) == vt
    decreases |s|, 2, 0
  {
    SplitShorter(s);
    if vt == VT_BSTR then Some(Str(s))
    else
      match Split(s)
      case None => None
      case Some(ps) =>
        if vt != VT_VARIANT + VT_ARRAY then ParseFlat(vt, ps)
        else
          match ParseItems(ps, |s|)
          case None => None
          case Some(vs) => Some(Nested(0, vs))
  }

  /** The pieces of an array of strings or numbers, or of a scalar, which must be one piece. */
  function ParseFlat(vt: nat, ps: seq<Text>): (r: Option<Variant>)
    requires ps != []
    ensures r.Some? ==> TypeOf(r.value) == vt
  {
    if vt == VT_BSTR + VT_ARRAY then Some(Strings(0, ps))
    else if IsArray(vt) then
      (match ParseLeaves(ElemType(vt), ps)
       case None => None
       case Some(xs) => Some(Vector(ElemType(vt), 0, xs)))
    else if |ps| > 1 then None
    else
      match ParseLeaf(vt, ps[0])
      case None => None
      case Some(bits) => Some(Scalar(vt, bits))
  }

  function ParseLeaves(e: nat, ps: seq<Text>): (r: Option<seq<nat>>)
    ensures r.Some? ==> |r.value| == |ps| && IntType(e)
  {
    if !IntType(e) then None
    else if ps == [] then Some([])
    else
      var front := ParseLeaves(e, ps[..|ps| - 1]);
      var last := ParseLeaf(e, ps[|ps| - 1]);
      if front.None? || last.None? then None else Some(front.value + [last.value])
  }

  lemma {:induction false} ParsedLeafAt(e: nat, ps: seq<Text>, i: nat)
    requires i < |ps| && ParseLeaves(e, ps).Some?
    ensures ParseLeaf(e, ps[i]) == Some(ParseLeaves(e, ps).value[i])
  {
    if i < |ps| - 1 {
      ParsedLeafAt(e, ps[..|ps| - 1], i);
    }
  }

  lemma {:induction false} AllLeavesParse(e: nat, ps: seq<Text>)
    requires IntType(e) && forall i :: 0 <= i < |ps| ==> ParseLeaf(e, ps[i]).Some?
    ensures ParseLeaves(e, ps).Some?
  {
    if ps != [] {
      AllLeavesParse(e, ps[..|ps| - 1]);
    }
  }

  function ParseItems(qs: seq<Text>, bound: nat): (r: Option<seq<Variant>>)
    requires forall i :: 0 <= i < |qs| ==> |qs[i]| <= bound
    ensures r.Some? ==> |r.value| == |qs|
    decreases bound, 1, 1 + |qs|
  {
    if qs == [] then Some([])
    else
      var front := ParseItems(qs[..|qs| - 1], bound);
      var last := ParsedItem(qs[|qs| - 1]);
      if front.None? || last.None? then None else Some(front.value + [last.value])
  }

  function ParsedItem(q: Text): (r: Option<Variant>)
    decreases |q|, 0, 0
  {
    match ParseItem(q)
    case None => None
    case Some(cell) => Parse(cell.vt, cell.text)
  }

  lemma {:induction false} ParsedAt(qs: seq<Text>, bound: nat, i: nat)
    requires i < |qs| && (forall k :: 0 <= k < |qs| ==> |qs[k]| <= bound) && ParseItems(qs, bound).Some?
    ensures ParsedItem(qs[i]) == Some(ParseItems(qs, bound).value[i])
  {
    if i < |qs| - 1 {
      ParsedAt(qs[..|qs| - 1], bound, i);
    }
  }

  // ----- what a printed element parses to -----

  lemma NoSpaces(s: Text)
    requires IsDecimal(s)
    ensures SkipSpaces(s) == s && Run(s, 10) == |s| && s[..|s|] == s
  {
    RunIs(s, 10, |s|);
  }

  lemma TypeOfDigits(s: Text)
    requires IsDecimal(s)
    ensures TypeNumber(s) == Digits(s, 10) % U16
  {
    NoSpaces(s);
  }

  lemma TypeOfDecimal(vt: nat)
    requires vt < U16
    ensures TypeNumber(Decimal(vt)) == vt
  {
    TypeOfDigits(Decimal(vt));
    DecimalValue(vt);
  }

  lemma FirstIs(s: Text, ch: nat, i: nat)
    requires i < |s| && s[i] == ch && forall j :: 0 <= j < i ==> s[j] != ch
    ensures IndexOf(s, ch) == i
  {
  }

  lemma LastAtEnd(s: Text, ch: nat)
    requires s != [] && s[|s| - 1] == ch
    ensures Last(s, ch) == |s| - 1
  {
  }

  lemma InsideOfBracketed(body: Text)
    ensures Inside(Bracketed(body)) == Some(body)
  {
    var q := Bracketed(body);
    var rest := body + [RPAREN];
    FirstIs(q, LPAREN, 0);
    assert q[1..] == rest;
    LastAtEnd(rest, RPAREN);
    assert rest[..|body|] == body;
  }

  lemma BodyParses(d: Text, t: Text)
    requires IsDecimal(d)
    ensures ParseBody(d + [COMMA] + t) == Some(Cell(TypeNumber(d), t))
  {
    var body := d + [COMMA] + t;
    FirstIs(body, COMMA, |d|);
    assert body[..|d|] == d && body[|d| + 1..] == t;
  }

  /** An element is read back by stripping exactly what the printer put around it. */
  lemma ItemParses(vt: nat, t: Text)
    requires vt < U16
    ensures ParseItem(Item(vt, t)) == Some(Cell(vt, t))
  {
    InsideOfBracketed(Decimal(vt) + [COMMA] + t);
    BodyParses(Decimal(vt), t);
    TypeOfDecimal(vt);
  }

  // ----- the texts in characters -----

  predicate Spaces(s: Text)
  {
    forall i :: 0 <= i < |s| ==> s[i] == 32
  }

  lemma {:induction false} SpacesSkipped(a: Text, t: Text)
    requires Spaces(a) && (t == [] || t[0] != 32)
    ensures SkipSpaces(a + t) == t
  {
    if a == [] {
      assert a + t == t;
    } else {
      assert (a + t)[1..] == a[1..] + t;
      SpacesSkipped(a[1..], t);
    }
  }

  /** Spaces before a type number are skipped, and it ends at the space behind it. */
  lemma SpacedType(a: Text, n: nat, b: Text)
    requires Spaces(a) && (b == [] || b[0] == 32)
    ensures TypeNumber(a + (Decimal(n) + b)) == n % 65536
  {
    var t := Decimal(n) + b;
    assert t[0] == Decimal(n)[0];
    SpacesSkipped(a, t);
    RunOfDecimal(Decimal(n), b);
    DecimalValue(n);
  }

  lemma LastIs(s: Text, ch: nat, i: nat)
    requires i < |s| && s[i] == ch && forall j :: i < j < |s| ==> s[j] != ch
    ensures Last(s, ch) == i
  {
  }

  lemma OpenedAt(a: Text, rest: Text)
    requires Spaces(a)
    ensures var q := a + ([40] + rest);
            IndexOf(q, LPAREN) == |a| && AllSpaces(q[..|a|]) && q[|a| + 1..] == rest && |a| < |q|
  {
    var q := a + ([40] + rest);
    FirstIs(q, LPAREN, |a|);
    assert q[..|a|] == a && q[|a| + 1..] == rest;
  }

  lemma ClosedAt(body: Text, b: Text)
    requires Spaces(b)
    ensures var rest := body + ([41] + b);
            Last(rest, RPAREN) == |body| && AllSpaces(rest[|body| + 1..]) && rest[..|body|] == body
  {
    var rest := body + ([41] + b);
    LastIs(rest, RPAREN, |body|);
    assert rest[|body| + 1..] == b && rest[..|body|] == body;
  }

  /** "a(body)b" with spaces for a and b */
  lemma SpacedInside(a: Text, body: Text, b: Text)
    requires Spaces(a) && Spaces(b)
    ensures Inside(a + ([40] + (body + ([41] + b)))) == Some(body)
  {
    OpenedAt(a, body + ([41] + b));
    ClosedAt(body, b);
  }

  lemma SpacedBody(head: Text, t: Text)
    requires DigitsAndSpaces(head)
    ensures ParseBody(head + [44] + t) == Some(Cell(TypeNumber(head), t))
  {
    var body := head + [44] + t;
    FirstIs(body, COMMA, |head|);
    assert body[..|head|] == head && body[|head| + 1..] == t;
  }

  /** An element may have spaces outside its brackets and around its type; its text is what follows the comma. */
  lemma SpacedItem(a: Text, c: Text, n: nat, d: Text, t: Text, b: Text)
    requires Spaces(a) && Spaces(b) && Spaces(c) && Spaces(d)
    ensures var head := c + (Decimal(n) + d);
            ParseItem(a + ([40] + (head + [44] + t + ([41] + b)))) == Some(Cell(n % 65536, t))
  {
    var head := c + (Decimal(n) + d);
    SpacedInside(a, head + [44] + t, b);
    SpacedHead(c, Decimal(n), d);
    SpacedBody(head, t);
    SpacedType(c, n, d);
  }

  lemma SpacedHead(c: Text, digits: Text, d: Text)
    requires Spaces(c) && IsDecimal(digits) && Spaces(d)
    ensures DigitsAndSpaces(c + (digits + d))
  {
  }

  lemma InFront(q: Text, a: nat, i: nat)
    requires i < |q| && a <= i
    ensures q[a] in q[..i + 1]
  {
    assert q[..i + 1][a] == q[a];
  }

  lemma InBack(q: Text, j: nat, i: nat)
    requires i <= j < |q|
    ensures q[j] in q[i..]
  {
    assert q[i..][j - i] == q[j];
  }

  /** An element with something other than a space before its first '(' is refused, and so is one without any. */
  lemma NotOpened(q: Text, i: nat)
    ensures 40 !in q ==> ParseItem(q) == None
    ensures i < |q| && q[i] != 32 && 40 !in q[..i + 1] ==> ParseItem(q) == None
  {
    var a := IndexOf(q, LPAREN);
    if i < |q| && a < |q| {
      if a <= i {
        InFront(q, a, i);
      } else {
        assert q[..a][i] == q[i];
      }
    }
  }

  /** So is one with something other than a space behind its last ')', or without any. */
  lemma NotClosed(q: Text, i: nat)
    requires i < |q| && q[i] != 32 && 41 !in q[i..]
    ensures ParseItem(q) == None
  {
    var a := IndexOf(q, LPAREN);
    if a < |q| {
      var rest := q[a + 1..];
      var b := Last(rest, RPAREN);
      if b >= 0 {
        var j: nat := a + 1 + b;
        assert q[j] == 41;
        if i <= j {
          InBack(q, j, i);
        } else {
          assert rest[b + 1..][i - j - 1] == q[i];
        }
      }
    }
  }

  lemma FlatByNumber(vt: nat, ps: seq<Text>)
    requires ps != []
    ensures ParseFlat(0x2008, ps) == Some(Strings(0, ps))
    ensures !IsArray(vt) && |ps| > 1 ==> ParseFlat(vt, ps) == None
    ensures !IsArray(vt) && |ps| == 1 ==>
      ParseFlat(vt, ps) == if ParseLeaf(vt, ps[0]).Some? then Some(Scalar(vt, ParseLeaf(vt, ps[0]).value)) else None
  {
  }

  /** How the type decides, by number: a string is taken whole, everything else split, and a scalar is one piece. */
  lemma ParseByNumber(vt: nat, s: Text)
    requires vt != 0x200C
    ensures vt == 8 ==> Parse(vt, s) == Some(Str(s))
    ensures vt != 8 && Split(s).None? ==> Parse(vt, s) == None
    ensures vt != 8 && Split(s).Some? && vt == 0x2008 ==> Parse(vt, s) == Some(Strings(0, Split(s).value))
    ensures vt != 8 && Split(s).Some? && !IsArray(vt) ==>
      var ps := Split(s).value;
      ps != [] && Parse(vt, s) == if |ps| > 1 || ParseLeaf(vt, ps[0]).None? then None
                                  else Some(Scalar(vt, ParseLeaf(vt, ps[0]).value))
  {
    SplitShorter(s);
    if vt != 8 && Split(s).Some? {
      FlatByNumber(vt, Split(s).value);
    }
  }

  /** A type that is not written in digits and spaces is refused. */
  lemma TypeRefused(a: Text, body: Text, b: Text, j: nat)
    requires Spaces(a) && Spaces(b)
    requires j < |body| && body[j] != 32 && !(48 <= body[j] <= 57) && 44 !in body[..j + 1]
    ensures ParseItem(a + ([40] + (body + ([41] + b)))) == None
  {
    SpacedInside(a, body, b);
    var c := IndexOf(body, COMMA);
    if c < |body| {
      if c <= j {
        InFront(body, c, j);
      } else {
        assert body[..c][j] == body[j];
      }
    }
  }

  /** Of the types without an integer only VT_EMPTY, number 0, has a text, the empty one. */
  lemma PrintedEmpty(v: Variant)
    requires Typed(v) && v.Scalar? && v.vt !in {2, 3, 6, 11, 17, 18, 19, 20, 21}
    ensures Print(v) == if v.vt == 0 then Some([]) else None
  {
    PrintedByNumber(v.vt, v.bits);
  }

  lemma SampleItems()
    ensures Item(3, [53]) == [40, 51, 44, 53, 41] && Item(8, [97, 98]) == [40, 56, 44, 97, 98, 41]
  {
  }

  lemma SampleJoin(first: Text, second: Text)
    ensures Join([first, second]) == first + [44] + second
  {
    JoinSnoc([], first, COMMA);
    JoinSnoc([first], second, COMMA);
    assert [] + [first] == [first] && [first] + [second] == [first, second] && [] + first == first;
  }

  /** An integer and a string in an array: "(3,5),(8,ab)". */
  lemma PrintedSample(v: Variant)
    requires v == Nested(0, [Scalar(3, 5), Str([97, 98])])
    ensures Typed(v) && Print(v) == Some([40, 51, 44, 53, 41] + [44] + [40, 56, 44, 97, 98, 41])
  {
    var vs := v.items;
    PowValues();
    assert vs[..1] == [vs[0]] && vs[..1][..0] == [];
    var first, second := Item(3, [53]), Item(8, [97, 98]);
    assert Print(vs[0]) == Some([53]);
    assert PrintItems(vs[..1]) == Some([] + [first]);
    assert PrintItems(vs) == Some([] + [first] + [second]);
    assert [] + [first] + [second] == [first, second];
    SampleItems();
    SampleJoin(first, second);
  }

  /** The bit pattern 65535 is -1 in a signed type and 65535 in an unsigned one. */
  lemma PrintedSigns()
    ensures PrintLeaf(2, 65535) == Some([45] + [49]) && PrintLeaf(18, 65535) == Some([54] + [53] + [53] + [51] + [53])
  {
    PowValues();
    assert Decimal(65535) == Decimal(6553) + [53];
    assert Decimal(6553) == Decimal(655) + [51];
    assert Decimal(655) == Decimal(65) + [53];
    assert Decimal(65) == [54] + [53];
  }
}
