/** The option-string parser GetOptionValue (dn_common.c) and the string bcap_service prints for it. */
module Options {
  import opened Wire
  import opened Variants
  import opened RacText
  import opened RacNumber

  const EQUALS := 61

  /** The bracket pair a character belongs to: (), [], {} or <>. */
  function Pair(ch: nat): Option<(int, int)>
  {
    if ch == 40 || ch == 41 then Some((40, 41))
    else if ch == 91 || ch == 93 then Some((91, 93))
    else if ch == 123 || ch == 125 then Some((123, 125))
    else if ch == 60 || ch == 62 then Some((60, 62))
    else None
  }

  predicate Bracket(ch: nat)
  {
    Pair(ch).Some?
  }

  function Lower(ch: nat): nat
  {
    if 65 <= ch <= 90 then ch + 32 else ch
  }

  /** _wcsicmp finds no difference */
  predicate SameKey(a: Text, b: Text)
  {
    |a| == |b| && forall i :: 0 <= i < |a| ==> Lower(a[i]) == Lower(b[i])
  }

  function TrimEnd(s: Text): (r: Text)
    ensures r == [] || r[|r| - 1] != SPACE
  {
    if s != [] && s[|s| - 1] == SPACE then TrimEnd(s[..|s| - 1]) else s
  }

  function TrimStart(s: Text): (r: Text)
    ensures r == [] || r[0] != SPACE
  {
    if s != [] && s[0] == SPACE then TrimStart(s[1..]) else s
  }

  function Trim(s: Text): Text
  {
    TrimEnd(TrimStart(s))
  }

  // ----- the scan -----

  /** What the search ends with: a malformed string, no such key, the key without a value, or its value. */
  datatype Found = Malformed | Absent | NoValue | Value(raw: Text)

  /**
   * The nest level, the bracket pair in force, whether '=' was seen, the title before it, and the part
   * being read: the title until '=', then the value.
   */
  datatype State = State(level: nat, open: int, close: int, titled: bool, title: Text, part: Text)

  datatype Progress = More(state: State) | Done(found: Found)

  const START_STATE := State(0, -1, -1, false, [], [])

  /** The end of a segment, at ',' or at the terminating NUL. */
  function EndSegment(st: State, ch: nat, key: Text): Progress
  {
    var value := if st.titled then st.part else [];
    if SameKey(Trim(st.title), key) then Done(if value == [] then NoValue else Value(value))
    else if ch == COMMA then More(State(0, st.open, st.close, false, [], []))
    else Done(Absent)
  }

  /** A character outside brackets. */
  function Outside(st: State, ch: nat, key: Text): Progress
  {
    if ch == EQUALS then
      if st.titled then Done(Malformed) else More(st.(titled := true, title := st.part, part := []))
    else if ch == COMMA || ch == 0 then EndSegment(st, ch, key)
    else More(st.(part := st.part + [ch]))
  }

  /** What a character does to the nest level; the outermost brackets are deleted. */
  datatype Nesting = Unmatched | Nesting(level: nat, open: int, close: int, deleted: bool)

  function Nest(level: nat, open0: int, close0: int, ch: nat): Nesting
  {
    var outer := level == 0 && Bracket(ch);
    var open := if outer then Pair(ch).value.0 else open0;
    var close := if outer then Pair(ch).value.1 else close0;
    if ch == open then Nesting(level + 1, open, close, level == 0)
    else if ch == close then (if level == 0 then Unmatched else Nesting(level - 1, open, close, level == 1))
    else Nesting(level, open, close, false)
  }

  /** With the nest level brought up to date: a bracket deleted, a character outside brackets, or one kept. */
  function Nested(st: State, deleted: bool, ch: nat, key: Text): Progress
  {
    if deleted then More(st)
    else if st.level == 0 then Outside(st, ch, key)
    else More(st.(part := st.part + [ch]))
  }

  function Step(st: State, ch: nat, key: Text): Progress
  {
    var n := Nest(st.level, st.open, st.close, ch);
    if n.Unmatched? then Done(Malformed)
    else Nested(st.(level := n.level, open := n.open, close := n.close), n.deleted, ch, key)
  }

  /** The rest of the text and its NUL; a bracket left open is malformed. */
  function Search(st: State, s: Text, key: Text): Found
    decreases |s|
  {
    var p := Step(st, if s == [] then 0 else s[0], key);
    if p.Done? then p.found
    else if s == [] then Malformed
    else Search(p.state, s[1..], key)
  }

  function Lookup(s: Text, key: Text): Found
  {
    Search(START_STATE, s, key)
  }

  // ----- option strings -----

  /** How a value is written: no '=' at all, as it is, or within a pair of brackets. */
  datatype Quote = Bare | NoEquals | Within(open: nat)

  datatype Segment = Segment(title: Text, value: Text, quote: Quote)

  predicate PlainChar(ch: nat)
  {
    !Bracket(ch) && ch != COMMA && ch != EQUALS && ch != 0
  }

  predicate PlainText(s: Text)
  {
    forall i :: 0 <= i < |s| ==> PlainChar(s[i])
  }

  predicate IsOpen(ch: nat)
  {
    ch == 40 || ch == 91 || ch == 123 || ch == 60
  }

  /** From the given level on, brackets of the pair never close the outermost one. */
  predicate Inner(s: Text, open: int, close: int, level: nat)
  {
    if s == [] then level == 1
    else if s[0] == open then Inner(s[1..], open, close, level + 1)
    else if s[0] == close then level > 1 && Inner(s[1..], open, close, level - 1)
    else Inner(s[1..], open, close, level)
  }

  predicate ValidSegment(g: Segment)
  {
    PlainText(g.title) &&
    match g.quote
    case Bare => PlainText(g.value)
    case NoEquals => g.value == []
    case Within(open) => IsOpen(open) && Inner(g.value, open, Pair(open).value.1, 1) && NoNul(g.value)
  }

  function SegmentText(g: Segment): Text
    requires ValidSegment(g)
  {
    match g.quote
    case NoEquals => g.title
    case Bare => g.title + [EQUALS] + g.value
    case Within(open) => g.title + [EQUALS] + ([open] + g.value + [Pair(open).value.1 as nat])
  }

  function OptionText(gs: seq<Segment>): Text
    requires forall i :: 0 <= i < |gs| ==> ValidSegment(gs[i])
  {
    if gs == [] then []
    else SegmentText(gs[0]) + (if |gs| == 1 then [] else [COMMA] + OptionText(gs[1..]))
  }

  /** A segment without '=' has an empty title: its text is never compared with the key. */
  function TitleOf(g: Segment): Text
  {
    if g.quote.NoEquals? then [] else g.title
  }

  /** The first segment whose trimmed title is the key, ignoring case. */
  function FirstMatch(gs: seq<Segment>, key: Text): Found
  {
    if gs == [] then Absent
    else if SameKey(Trim(TitleOf(gs[0])), key) then Here(gs[0])
    else FirstMatch(gs[1..], key)
  }

  lemma SearchStep(st: State, ch: nat, rest: Text, key: Text)
    ensures var p := Step(st, ch, key);
            Search(st, [ch] + rest, key) == if p.Done? then p.found else Search(p.state, rest, key)
  {
    assert ([ch] + rest)[1..] == rest;
  }

  lemma Grown(x: Text, ch: nat, y: Text)
    ensures x + [ch] + y == x + ([ch] + y)
  {
  }

  lemma {:induction false} SearchPlain(st: State, p: Text, rest: Text, key: Text)
    requires st.level == 0 && Pairs(st.open, st.close) && PlainText(p)
    ensures Search(st, p + rest, key) == Search(st.(part := st.part + p), rest, key)
    decreases |p|
  {
    if p == [] {
      assert p + rest == rest && st.part + p == st.part;
    } else {
      SearchStep(st, p[0], p[1..] + rest, key);
      assert p + rest == [p[0]] + (p[1..] + rest);
      var next := st.(part := st.part + [p[0]]);
      SearchPlain(next, p[1..], rest, key);
      Grown(st.part, p[0], p[1..]);
      assert p == [p[0]] + p[1..];
    }
  }

  /** The pair in force is none yet or one of the four. */
  predicate Pairs(open: int, close: int)
  {
    (open == -1 && close == -1) || (open >= 0 && Pair(open) == Some((open, close)))
  }

  /** Within brackets everything up to the closing one is kept. */
  lemma {:induction false} SearchInner(st: State, v: Text, rest: Text, key: Text)
    requires st.level >= 1 && st.open >= 0 && Pair(st.open) == Some((st.open, st.close))
    requires st.close >= 0 && Inner(v, st.open, st.close, st.level)
    ensures Search(st, v + ([st.close as nat] + rest), key) == Search(st.(level := 0, part := st.part + v), rest, key)
    decreases |v|
  {
    var more := [st.close as nat] + rest;
    if v == [] {
      assert v + more == more && st.part + v == st.part;
      SearchStep(st, st.close, rest, key);
    } else {
      SearchStep(st, v[0], v[1..] + more, key);
      assert v + more == [v[0]] + (v[1..] + more);
      var level := if v[0] == st.open then st.level + 1 else if v[0] == st.close then st.level - 1 else st.level;
      var next := st.(level := level, part := st.part + [v[0]]);
      SearchInner(next, v[1..], rest, key);
      Grown(st.part, v[0], v[1..]);
      assert v == [v[0]] + v[1..];
    }
  }

  /** The state when a segment has been read. */
  function AtEnd(g: Segment, open: int, close: int): State
  {
    if g.quote.NoEquals? then State(0, open, close, false, [], g.title)
    else State(0, open, close, true, g.title, g.value)
  }

  lemma SearchEquals(st: State, rest: Text, key: Text)
    requires st.level == 0 && Pairs(st.open, st.close) && !st.titled
    ensures Search(st, [EQUALS] + rest, key) == Search(st.(titled := true, title := st.part, part := []), rest, key)
  {
    SearchStep(st, EQUALS, rest, key);
  }

  lemma SearchOpen(st: State, open: nat, rest: Text, key: Text)
    requires st.level == 0 && IsOpen(open)
    ensures Search(st, [open] + rest, key)
         == Search(st.(level := 1, open := open, close := Pair(open).value.1), rest, key)
  {
    SearchStep(st, open, rest, key);
  }

  lemma SearchTitle(title: Text, open: int, close: int, rest: Text, key: Text)
    requires PlainText(title) && Pairs(open, close)
    ensures Search(State(0, open, close, false, [], []), title + rest, key)
         == Search(State(0, open, close, false, [], title), rest, key)
  {
    SearchPlain(State(0, open, close, false, [], []), title, rest, key);
    assert [] + title == title;
  }

  lemma SearchToValue(title: Text, open: int, close: int, more: Text, key: Text)
    requires PlainText(title) && Pairs(open, close)
    ensures Search(State(0, open, close, false, [], []), title + ([EQUALS] + more), key)
         == Search(State(0, open, close, true, title, []), more, key)
  {
    SearchTitle(title, open, close, [EQUALS] + more, key);
    SearchEquals(State(0, open, close, false, [], title), more, key);
  }

  lemma SearchBare(title: Text, value: Text, open: int, close: int, rest: Text, key: Text)
    requires PlainText(value) && Pairs(open, close)
    ensures Search(State(0, open, close, true, title, []), value + rest, key)
         == Search(State(0, open, close, true, title, value), rest, key)
  {
    SearchPlain(State(0, open, close, true, title, []), value, rest, key);
    assert [] + value == value;
  }

  lemma SearchWithin(title: Text, value: Text, open: int, close: int, o: nat, c: nat, rest: Text, key: Text)
    requires IsOpen(o) && Pair(o) == Some((o as int, c as int)) && Inner(value, o, c, 1)
    ensures Search(State(0, open, close, true, title, []), [o] + (value + ([c] + rest)), key)
         == Search(State(0, o, c, true, title, value), rest, key)
  {
    SearchOpen(State(0, open, close, true, title, []), o, value + ([c] + rest), key);
    SearchInner(State(1, o, c, true, title, []), value, rest, key);
    assert [] + value == value;
  }

  /** The pair in force once the segment has been read. */
  function PairAfter(g: Segment, open: int, close: int): (int, int)
    requires ValidSegment(g)
  {
    if g.quote.Within? then Pair(g.quote.open).value else (open, close)
  }

  lemma RegroupBare(title: Text, value: Text, rest: Text)
    ensures title + [EQUALS] + value + rest == title + ([EQUALS] + (value + rest))
  {
  }

  lemma RegroupWithin(title: Text, value: Text, o: nat, c: nat, rest: Text)
    ensures title + [EQUALS] + ([o] + value + [c]) + rest == title + ([EQUALS] + ([o] + (value + ([c] + rest))))
  {
  }

  lemma SearchSegment(g: Segment, open: int, close: int, rest: Text, key: Text)
    requires ValidSegment(g) && Pairs(open, close)
    ensures var p := PairAfter(g, open, close);
            Pairs(p.0, p.1)
            && Search(State(0, open, close, false, [], []), SegmentText(g) + rest, key)
               == Search(AtEnd(g, p.0, p.1), rest, key)
  {
    if g.quote.NoEquals? {
      SearchTitle(g.title, open, close, rest, key);
    } else if g.quote.Bare? {
      RegroupBare(g.title, g.value, rest);
      SearchToValue(g.title, open, close, g.value + rest, key);
      SearchBare(g.title, g.value, open, close, rest, key);
    } else {
      var o, c := g.quote.open, Pair(g.quote.open).value.1 as nat;
      RegroupWithin(g.title, g.value, o, c, rest);
      SearchToValue(g.title, open, close, [o] + (g.value + ([c] + rest)), key);
      SearchWithin(g.title, g.value, open, close, o, c, rest, key);
    }
  }

  lemma StepEnd(st: State, ch: nat, key: Text)
    requires st.level == 0 && Pairs(st.open, st.close) && (ch == COMMA || ch == 0)
    ensures Step(st, ch, key) == EndSegment(st, ch, key)
  {
  }

  function Here(g: Segment): Found
  {
    if g.value == [] then NoValue else Value(g.value)
  }

  lemma EndOf(g: Segment, o: int, c: int, ch: nat, key: Text)
    requires ValidSegment(g)
    ensures EndSegment(AtEnd(g, o, c), ch, key) ==
      if SameKey(Trim(TitleOf(g)), key) then Done(Here(g))
      else if ch == COMMA then More(State(0, o, c, false, [], []))
      else Done(Absent)
  {
  }

  /** At the end of a segment the key is found there, or the search goes on after the comma. */
  lemma SegmentEnds(g: Segment, o: int, c: int, more: Text, key: Text)
    requires ValidSegment(g) && Pairs(o, c)
    ensures SameKey(Trim(TitleOf(g)), key) ==>
      Search(AtEnd(g, o, c), [], key) == Here(g) && Search(AtEnd(g, o, c), [COMMA] + more, key) == Here(g)
    ensures !SameKey(Trim(TitleOf(g)), key) ==>
      Search(AtEnd(g, o, c), [], key) == Absent
      && Search(AtEnd(g, o, c), [COMMA] + more, key) == Search(State(0, o, c, false, [], []), more, key)
  {
    var st := AtEnd(g, o, c);
    SearchStep(st, COMMA, more, key);
    StepEnd(st, COMMA, key);
    StepEnd(st, 0, key);
    EndOf(g, o, c, COMMA, key);
    EndOf(g, o, c, 0, key);
  }

  /** Looking a key up in an option string finds its first segment; brackets keep any value whole. */
  lemma {:induction false} LookupFindsFirst(gs: seq<Segment>, open: int, close: int, key: Text)
    requires gs != [] && (forall i :: 0 <= i < |gs| ==> ValidSegment(gs[i])) && Pairs(open, close)
    ensures Search(State(0, open, close, false, [], []), OptionText(gs), key) == FirstMatch(gs, key)
    decreases |gs|
  {
    var g, p := gs[0], PairAfter(gs[0], open, close);
    var more := OptionText(gs[1..]);
    var rest := if |gs| == 1 then [] else [COMMA] + more;
    SearchSegment(g, open, close, rest, key);
    SegmentEnds(g, p.0, p.1, more, key);
    if |gs| > 1 {
      LookupFindsFirst(gs[1..], p.0, p.1, key);
    } else {
      assert FirstMatch(gs[1..], key) == Absent;
    }
  }

  // ----- the result -----

  /** E_FAIL, an empty VARIANT, VARIANT_TRUE for a BOOL key without value, or the outcome of the conversion. */
  datatype Result = Failed | Cleared | SetTrue | Converted(value: Variant) | BadValue

  function Finish(found: Found, vt: nat): Result
  {
    match found
    case Malformed => Failed
    case Absent => Cleared
    case NoValue => if vt == VT_BOOL then SetTrue else Cleared
    case Value(raw) =>
      var text := Trim(raw);
      if vt == VT_BSTR then Converted(Str(text))
      else
        match ParseLeaf(vt, text)
        case Some(bits) => Converted(Scalar(vt, bits))
        case None => BadValue
  }

  // ----- deleting the outer brackets in place -----

  /** memcpy one element down, the terminating NUL included */
  method DeleteAt(buf: array<nat>, i: nat, len: nat)
    requires i <= len < buf.Length
    modifies buf
    ensures buf[..i] == old(buf[..i]) && buf[i..len] == old(buf[i + 1..len + 1])
  {
    var j := i;
    while j < len
      invariant i <= j <= len
      invariant buf[..i] == old(buf[..i])
      invariant forall k :: i <= k < j ==> buf[k] == old(buf[k + 1])
      invariant forall k :: j <= k < buf.Length ==> buf[k] == old(buf[k])
    {
      buf[j] := buf[j + 1];
      j := j + 1;
    }
  }

  /** The buffer at position i: the part being read just before it, the rest of the text and its NUL from it on. */
  predicate Reading(cells: seq<nat>, i: nat, len: nat, part: Text, rest: Text)
  {
    && |part| <= i <= len < |cells| && cells[i - |part|..i] == part
    && len == i + |rest| && cells[i..len + 1] == rest + [0]
  }

  lemma ReadingKept(cells: seq<nat>, i: nat, len: nat, part: Text, rest: Text)
    requires Reading(cells, i, len, part, rest) && rest != []
    ensures cells[i] == rest[0]
    ensures Reading(cells, i + 1, len, part + [rest[0]], rest[1..])
    ensures Reading(cells, i + 1, len, [], rest[1..])
  {
    assert cells[i..len + 1][0] == cells[i];
    assert cells[i..len + 1][1..] == cells[i + 1..len + 1];
    assert cells[i - |part|..i + 1] == cells[i - |part|..i] + [cells[i]];
    assert (rest + [0])[1..] == rest[1..] + [0];
  }

  lemma ReadingDeleted(cells: seq<nat>, next: seq<nat>, i: nat, len: nat, part: Text, rest: Text)
    requires Reading(cells, i, len, part, rest) && rest != [] && |next| == |cells|
    requires next[..i] == cells[..i] && next[i..len] == cells[i + 1..len + 1]
    ensures Reading(next, i, len - 1, part, rest[1..])
  {
    assert next[i - |part|..i] == next[..i][i - |part|..] == cells[..i][i - |part|..] == cells[i - |part|..i];
    assert cells[i..len + 1][1..] == cells[i + 1..len + 1];
    assert (rest + [0])[1..] == rest[1..] + [0];
  }

  method DeleteHere(buf: array<nat>, i: nat, len: nat, ghost part: Text, ghost rest: Text)
    requires Reading(buf[..], i, len, part, rest) && rest != []
    modifies buf
    ensures Reading(buf[..], i, len - 1, part, rest[1..])
  {
    ghost var cells := buf[..];
    DeleteAt(buf, i, len);
    ReadingDeleted(cells, buf[..], i, len, part, rest);
  }

  /** SysAllocStringLen of the part just read; an empty one is left as the empty string. */
  method PartRead(buf: array<nat>, i: nat, n: nat, ghost len: nat, ghost part: Text, ghost rest: Text) returns (t: Text)
    requires Reading(buf[..], i, len, part, rest) && n == |part|
    ensures t == part
  {
    t := if n > 0 then buf[i - n..i] else [];
    assert buf[..][i - n..i] == buf[i - n..i];
  }

  method CharHere(buf: array<nat>, i: nat, ghost len: nat, ghost part: Text, ghost rest: Text) returns (ch: nat)
    requires Reading(buf[..], i, len, part, rest) && NoNul(rest)
    ensures ch == if rest == [] then 0 else rest[0]
    ensures rest != [] ==>
              Reading(buf[..], i + 1, len, part + [ch], rest[1..]) && Reading(buf[..], i + 1, len, [], rest[1..])
    ensures rest == [] ==> i == len
  {
    ch := buf[i];
    assert ch == buf[..][i..len + 1][0];
    if rest != [] {
      ReadingKept(buf[..], i, len, part, rest);
    }
  }

  /** The loop variables of GetOptionValue. */
  datatype Locals = Locals(i: nat, len: nat, level: nat, open: int, close: int, titled: bool, title: Text,
                           titleLen: nat, partLen: nat)

  /** They agree with the state of the scan. */
  predicate Tracks(v: Locals, st: State)
  {
    && st.level == v.level && st.open == v.open && st.close == v.close && st.titled == v.titled && st.title == v.title
    && Pairs(v.open, v.close) && (v.level > 0 ==> v.open >= 0)
    && (if v.titled then v.titleLen == 0 && v.partLen == |st.part|
        else v.partLen == 0 && v.titleLen == |st.part| && v.title == [])
  }

  predicate Ready(cells: seq<nat>, v: Locals, st: State, rest: Text)
  {
    Tracks(v, st) && Reading(cells, v.i, v.len, st.part, rest) && NoNul(rest)
  }

  /** After a round: the search is over, or the locals follow the scan to the next character. */
  predicate Follows(cells: seq<nat>, p: Progress, next: Locals, found: Option<Found>, rest: Text)
  {
    if p.Done? then found == Some(p.found)
    else
      && found == None
      && if rest == [] then next.i == next.len + 1 else Ready(cells, next, p.state, rest[1..])
  }

  /** A character outside brackets. */
  method RoundOutside(buf: array<nat>, v: Locals, ch: nat, key: Text, ghost st: State, ghost rest: Text)
    returns (next: Locals, found: Option<Found>)
    requires v.level == 0 && Ready(buf[..], v, st, rest) && ch == (if rest == [] then 0 else rest[0])
    requires rest != [] ==> Reading(buf[..], v.i + 1, v.len, st.part + [ch], rest[1..])
    requires rest != [] ==> Reading(buf[..], v.i + 1, v.len, [], rest[1..])
    requires rest == [] ==> v.i == v.len
    ensures Follows(buf[..], Outside(st, ch, key), next, found, rest)
  {
    next, found := v, None;
    if ch == EQUALS {
      if v.titled { return v, Some(Malformed); }
      var title := PartRead(buf, v.i, v.titleLen, v.len, st.part, rest);
      next := v.(i := v.i + 1, titled := true, title := title, titleLen := 0);
    } else if ch == COMMA || ch == 0 {
      var value: Text := [];
      if v.partLen > 0 {
        value := PartRead(buf, v.i, v.partLen, v.len, st.part, rest);
      }
      if SameKey(Trim(v.title), key) { return v, Some(if value == [] then NoValue else Value(value)); }
      if ch == 0 { return v, Some(Absent); }
      next := v.(i := v.i + 1, titled := false, title := [], titleLen := 0, partLen := 0);
    } else {
      next := Counted(v);
    }
  }

  function Counted(v: Locals): Locals
  {
    if v.titled then v.(i := v.i + 1, partLen := v.partLen + 1) else v.(i := v.i + 1, titleLen := v.titleLen + 1)
  }

  lemma NestKeepsPair(level: nat, open: int, close: int, ch: nat)
    requires Pairs(open, close) && (level > 0 ==> open >= 0) && Nest(level, open, close, ch).Nesting?
    ensures var n := Nest(level, open, close, ch);
            Pairs(n.open, n.close) && (n.level > 0 ==> n.open >= 0) && (n.deleted ==> ch != 0)
  {
  }

  method RoundNested(buf: array<nat>, v: Locals, deleted: bool, ch: nat, key: Text, ghost st: State, ghost rest: Text)
    returns (next: Locals, found: Option<Found>)
    requires Ready(buf[..], v, st, rest) && ch == (if rest == [] then 0 else rest[0]) && (deleted ==> ch != 0)
    requires rest != [] ==> Reading(buf[..], v.i + 1, v.len, st.part + [ch], rest[1..])
    requires rest != [] ==> Reading(buf[..], v.i + 1, v.len, [], rest[1..])
    requires rest == [] ==> v.i == v.len
    modifies buf
    ensures Follows(buf[..], Nested(st, deleted, ch, key), next, found, rest)
  {
    next, found := v, None;
    if deleted {
      DeleteHere(buf, v.i, v.len, st.part, rest);
      next := v.(len := v.len - 1);
    } else if v.level == 0 {
      next, found := RoundOutside(buf, v, ch, key, st, rest);
    } else {
      next := Counted(v);
    }
  }

  /** One round of the loop. */
  method Round(buf: array<nat>, v: Locals, key: Text, ghost st: State, ghost rest: Text)
    returns (next: Locals, found: Option<Found>)
    requires Ready(buf[..], v, st, rest)
    modifies buf
    ensures Follows(buf[..], Step(st, if rest == [] then 0 else rest[0], key), next, found, rest)
  {
    var ch := CharHere(buf, v.i, v.len, st.part, rest);
    var n := Nest(v.level, v.open, v.close, ch);
    if n.Unmatched? { return v, Some(Malformed); }
    NestKeepsPair(v.level, v.open, v.close, ch);
    next, found := RoundNested(buf, v.(level := n.level, open := n.open, close := n.close), n.deleted, ch, key,
                               st.(level := n.level, open := n.open, close := n.close), rest);
  }

  lemma SearchOnward(st: State, rest: Text, key: Text)
    ensures var p := Step(st, if rest == [] then 0 else rest[0], key);
            Search(st, rest, key)
            == if p.Done? then p.found else if rest == [] then Malformed else Search(p.state, rest[1..], key)
  {
  }

  /** The search of GetOptionValue over its own copy of the text. */
  method FindOption(src: Text, key: Text) returns (found: Found)
    requires NoNul(src)
    ensures found == Lookup(src, key)
  {
    var buf := new nat[|src| + 1](k => if 0 <= k < |src| then src[k] else 0);
    assert buf[..][0..|src| + 1] == src + [0];
    var v := Locals(0, |src|, 0, -1, -1, false, [], 0, 0);
    ghost var st, rest := START_STATE, src;
    while v.i <= v.len
      invariant if v.i <= v.len then Ready(buf[..], v, st, rest) && Search(st, rest, key) == Lookup(src, key)
                else Lookup(src, key) == Malformed
      decreases v.len + 1 - v.i
    {
      SearchOnward(st, rest, key);
      ghost var p := Step(st, if rest == [] then 0 else rest[0], key);
      ghost var was := v;
      var result: Option<Found>;
      v, result := Round(buf, v, key, st, rest);
      if result.Some? { return result.value; }
      st, rest := p.state, if rest == [] then [] else rest[1..];
    }
    found := Malformed;
  }

  /** GetOptionValue */
  method GetOptionValue(src: Text, key: Text, vt: nat) returns (r: Result)
    requires NoNul(src)
    ensures r == Finish(Lookup(src, key), vt)
  {
    var found := FindOption(src, key);
    r := Finish(found, vt);
  }

  // ----- the options bcap_service connects with -----

  function WdtKey(): Text
  {
    [87, 68, 84]
  }

  function InvokeKey(): Text
  {
    [73, 110, 118, 111, 107, 101, 84, 105, 109, 101, 111, 117, 116]
  }

  /** ",WDT=...,InvokeTimeout=..." */
  function ConnectText(wdt: nat, invoke: nat): Text
  {
    [COMMA] + Assign(WdtKey(), Decimal(wdt)) + [COMMA] + Assign(InvokeKey(), Decimal(invoke))
  }

  function Assign(key: Text, value: Text): Text
  {
    key + [EQUALS] + value
  }

  lemma TrimPlain(s: Text)
    requires s != [] && s[0] != SPACE && s[|s| - 1] != SPACE
    ensures Trim(s) == s
  {
  }

  predicate KeyText(s: Text)
  {
    s != [] && PlainText(s) && s[0] != SPACE && s[|s| - 1] != SPACE
  }

  lemma TwoOptionsText(k1: Text, v1: Text, k2: Text, v2: Text, gs: seq<Segment>)
    requires PlainText(k1) && PlainText(v1) && PlainText(k2) && PlainText(v2)
    requires gs == [Segment([], [], NoEquals), Segment(k1, v1, Bare), Segment(k2, v2, Bare)]
    ensures OptionText(gs) == [COMMA] + Assign(k1, v1) + [COMMA] + Assign(k2, v2)
  {
    var last, two := [gs[2]], [gs[1], gs[2]];
    assert gs[1..] == two && two[1..] == last;
    assert OptionText(last) == Assign(k2, v2);
    assert OptionText(two) == Assign(k1, v1) + ([COMMA] + Assign(k2, v2));
    assert OptionText(gs) == [] + ([COMMA] + OptionText(two));
  }

  lemma TwoOptionsMatch(k1: Text, v1: Text, k2: Text, v2: Text, key: Text, gs: seq<Segment>)
    requires KeyText(k1) && KeyText(k2) && v1 != [] && v2 != [] && key != []
    requires gs == [Segment([], [], NoEquals), Segment(k1, v1, Bare), Segment(k2, v2, Bare)]
    ensures SameKey(k1, key) ==> FirstMatch(gs, key) == Value(v1)
    ensures !SameKey(k1, key) && SameKey(k2, key) ==> FirstMatch(gs, key) == Value(v2)
  {
    var last, two := [gs[2]], [gs[1], gs[2]];
    assert gs[1..] == two && two[1..] == last;
    TrimPlain(k1);
    TrimPlain(k2);
    assert Trim([]) == [];
    assert FirstMatch(gs, key) == FirstMatch(two, key);
    assert !SameKey(k1, key) ==> FirstMatch(two, key) == FirstMatch(last, key);
  }

  /** Two options behind an empty first segment are both found. */
  lemma TwoOptions(k1: Text, v1: Text, k2: Text, v2: Text, key: Text)
    requires KeyText(k1) && KeyText(k2) && KeyText(v1) && KeyText(v2) && key != []
    ensures var text := [COMMA] + Assign(k1, v1) + [COMMA] + Assign(k2, v2);
            (SameKey(k1, key) ==> Lookup(text, key) == Value(v1))
            && (!SameKey(k1, key) && SameKey(k2, key) ==> Lookup(text, key) == Value(v2))
  {
    var gs := [Segment([], [], NoEquals), Segment(k1, v1, Bare), Segment(k2, v2, Bare)];
    TwoOptionsText(k1, v1, k2, v2, gs);
    TwoOptionsMatch(k1, v1, k2, v2, key, gs);
    LookupFindsFirst(gs, -1, -1, key);
  }

  lemma NumberKey(n: nat)
    ensures KeyText(Decimal(n))
  {
  }

  lemma NumberParsed(n: nat)
    requires n < U32
    ensures ParseLeaf(VT_UI4, Decimal(n)) == Some(n)
  {
    PowValues();
    assert PrintLeaf(VT_UI4, n) == Some(Decimal(n));
    LeafRoundTrip(VT_UI4, n);
  }

  lemma NumberRead(n: nat, text: Text)
    requires KeyText(text) && ParseLeaf(VT_UI4, text) == Some(n)
    ensures Finish(Value(text), VT_UI4) == Converted(Scalar(VT_UI4, n))
  {
    TrimPlain(text);
  }

  lemma Keys()
    ensures KeyText(WdtKey()) && KeyText(InvokeKey()) && !SameKey(WdtKey(), InvokeKey())
  {
  }

  /**
   * The values the client prints on connecting are read back whole, past the empty first segment, under the keys the
   * server looks for: "WDT" and "InvokeTimeout".
   */
  lemma ConnectOptionsRead(wdt: nat, invoke: nat)
    requires wdt < U32 && invoke < U32
    ensures Finish(Lookup(ConnectText(wdt, invoke), [87, 68, 84]), VT_UI4) == Converted(Scalar(VT_UI4, wdt))
    ensures Finish(Lookup(ConnectText(wdt, invoke),
                          [73, 110, 118, 111, 107, 101, 84, 105, 109, 101, 111, 117, 116]), VT_UI4)
         == Converted(Scalar(VT_UI4, invoke))
  {
    Keys();
    var w, v := Decimal(wdt), Decimal(invoke);
    NumberKey(wdt);
    NumberKey(invoke);
    NumberParsed(wdt);
    NumberParsed(invoke);
    NumberRead(wdt, w);
    NumberRead(invoke, v);
    TwoOptions(WdtKey(), w, InvokeKey(), v, WdtKey());
    TwoOptions(WdtKey(), w, InvokeKey(), v, InvokeKey());
  }

  // ----- the same in characters -----

  predicate Spaces(s: Text)
  {
    forall i :: 0 <= i < |s| ==> s[i] == 32
  }

  predicate Unspaced(t: Text)
  {
    t != [] && t[0] != 32 && t[|t| - 1] != 32
  }

  lemma {:induction false} TrimFront(a: Text, t: Text)
    requires Spaces(a) && (t == [] || t[0] != 32)
    ensures TrimStart(a + t) == t
  {
    if a == [] {
      assert a + t == t;
    } else {
      assert (a + t)[1..] == a[1..] + t;
      TrimFront(a[1..], t);
    }
  }

  lemma {:induction false} TrimBack(t: Text, b: Text)
    requires Spaces(b) && (t == [] || t[|t| - 1] != 32)
    ensures TrimEnd(t + b) == t
  {
    if b == [] {
      assert t + b == t;
    } else {
      var n := |b| - 1;
      assert (t + b)[..|t| + n] == t + b[..n];
      TrimBack(t, b[..n]);
    }
  }

  /** Spaces around a text are ignored, and nothing else is. */
  lemma TrimSpaces(a: Text, t: Text, b: Text)
    requires Spaces(a) && Unspaced(t) && Spaces(b)
    ensures Trim(a + (t + b)) == t
  {
    assert (t + b)[0] == t[0];
    TrimFront(a, t + b);
    TrimBack(t, b);
  }

  /** The same character, or a letter in the other case. */
  predicate SameLetter(x: nat, y: nat)
  {
    x == y || (65 <= x <= 90 && y == x + 32) || (65 <= y <= 90 && x == y + 32)
  }

  lemma KeysCompared(a: Text, b: Text)
    ensures SameKey(a, b) <==> |a| == |b| && forall i :: 0 <= i < |a| ==> SameLetter(a[i], b[i])
  {
    forall i | 0 <= i < |a| && i < |b| ensures Lower(a[i]) == Lower(b[i]) <==> SameLetter(a[i], b[i]) {
    }
  }

  /** No bracket, comma, equals sign or NUL. */
  predicate Ordinary(s: Text)
  {
    forall i :: 0 <= i < |s| ==> s[i] !in {0, 40, 41, 44, 60, 61, 62, 91, 93, 123, 125}
  }

  predicate Matching(o: nat, c: nat)
  {
    (o == 40 && c == 41) || (o == 91 && c == 93) || (o == 123 && c == 125) || (o == 60 && c == 62)
  }

  lemma {:induction false} NoBracketsInside(v: Text, o: nat, c: nat)
    requires o !in v && c !in v
    ensures Inner(v, o, c, 1)
    decreases |v|
  {
    if v != [] {
      assert v[0] in v;
      NoBracketsInside(v[1..], o, c);
    }
  }

  /** key=value, with the value as it stands or in one of the four pairs of brackets, which may hide commas. */
  lemma OneOption(key: Text, v: Text, o: nat, c: nat, asked: Text)
    requires Ordinary(key) && v != []
    ensures Ordinary(v) ==> Lookup(key + [61] + v, asked) == if SameKey(Trim(key), asked) then Value(v) else Absent
    ensures Matching(o, c) && o !in v && c !in v && 0 !in v ==>
      Lookup(key + [61] + ([o] + v + [c]), asked) == if SameKey(Trim(key), asked) then Value(v) else Absent
  {
    if Ordinary(v) {
      OneSegment(Segment(key, v, Bare), asked);
    }
    if Matching(o, c) && o !in v && c !in v && 0 !in v {
      NoBracketsInside(v, o, c);
      OneSegment(Segment(key, v, Within(o)), asked);
    }
  }

  lemma OneSegment(g: Segment, asked: Text)
    requires ValidSegment(g) && g.value != [] && !g.quote.NoEquals?
    ensures Lookup(SegmentText(g), asked) == if SameKey(Trim(g.title), asked) then Value(g.value) else Absent
  {
    LookupFindsFirst([g], -1, -1, asked);
    assert OptionText([g]) == SegmentText(g) + [] == SegmentText(g);
    assert FirstMatch([g][1..], asked) == Absent;
    assert FirstMatch([g], asked) == if SameKey(Trim(g.title), asked) then Here(g) else Absent;
  }

  /** A second equals sign, a closing bracket without its opening one and an opening one never closed are malformed. */
  lemma BrokenOption(key: Text, v: Text, o: nat, c: nat, rest: Text, asked: Text)
    requires Ordinary(key) && Ordinary(v) && Matching(o, c)
    ensures Lookup(key + ([61] + (v + ([61] + rest))), asked) == Malformed
    ensures Lookup(key + ([61] + (v + ([c] + rest))), asked) == Malformed
    ensures Lookup(key + ([61] + ([o] + v)), asked) == Malformed
  {
    SearchToValue(key, -1, -1, v + ([61] + rest), asked);
    SearchBare(key, v, -1, -1, [61] + rest, asked);
    SearchStep(State(0, -1, -1, true, key, v), 61, rest, asked);
    SearchToValue(key, -1, -1, v + ([c] + rest), asked);
    SearchBare(key, v, -1, -1, [c] + rest, asked);
    SearchStep(State(0, -1, -1, true, key, v), c, rest, asked);
    SearchToValue(key, -1, -1, [o] + v, asked);
    SearchOpen(State(0, -1, -1, true, key, []), o, v, asked);
    NeverClosed(State(1, o, c, true, key, []), v, asked);
  }

  lemma {:induction false} NeverClosed(st: State, v: Text, asked: Text)
    requires Ordinary(v) && st.level == 1 && st.open >= 0 && st.close >= 0 && Matching(st.open, st.close)
    ensures Search(st, v, asked) == Malformed
    decreases |v|
  {
    if v != [] {
      NeverClosed(st.(part := st.part + [v[0]]), v[1..], asked);
    }
  }

  /** What each outcome of the search gives, by the number of the type asked for. */
  lemma Outcomes(raw: Text, vt: nat)
    ensures Finish(Malformed, vt) == Failed && Finish(Absent, vt) == Cleared
    ensures Finish(NoValue, vt) == if vt == 11 then SetTrue else Cleared
    ensures vt == 8 ==> Finish(Value(raw), vt) == Converted(Str(Trim(raw)))
    ensures vt != 8 ==>
      Finish(Value(raw), vt) == if ParseLeaf(vt, Trim(raw)).Some?
                                then Converted(Scalar(vt, ParseLeaf(vt, Trim(raw)).value)) else BadValue
  {
  }
}
