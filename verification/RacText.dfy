/** The text form of VARIANT values and its splitter (rac_string.c). Texts are C strings without their NUL. */
module RacText {
  type Text = seq<nat>

  datatype Option<+T> = None | Some(value: T)

  const LPAREN := 40
  const RPAREN := 41
  const COMMA := 44

  // ----- splitting at the commas outside brackets -----

  /** The scanner after a prefix: the bracket depth, the finished pieces and the piece still growing. */
  datatype Scan = Bad | Scan(depth: nat, done: seq<Text>, cur: Text)

  const START := Scan(0, [], [])

  function Step(c: Scan, ch: nat): Scan
  {
    if c.Bad? then Bad
    else if ch == LPAREN then Scan(c.depth + 1, c.done, c.cur + [ch])
    else if ch == RPAREN then (if c.depth == 0 then Bad else Scan(c.depth - 1, c.done, c.cur + [ch]))
    else if ch == COMMA && c.depth == 0 then Scan(0, c.done + [c.cur], [])
    else Scan(c.depth, c.done, c.cur + [ch])
  }

  function ScanFrom(c: Scan, s: Text): Scan
  {
    if s == [] then c else Step(ScanFrom(c, s[..|s| - 1]), s[|s| - 1])
  }

  function Pieces(c: Scan): (ps: seq<Text>)
    requires c.Scan?
    ensures |ps| == |c.done| + 1
  {
    c.done + [c.cur]
  }

  /** SplitRacStr: the pieces, or nothing when the brackets do not match. */
  function Split(s: Text): Option<seq<Text>>
  {
    var c := ScanFrom(START, s);
    if c.Scan? && c.depth == 0 then Some(Pieces(c)) else None
  }

  /** The pieces with a separator between them: the printer's commas, or the NULs SplitRacStr writes. */
  function Join(ps: seq<Text>, sep: nat := COMMA): Text
    decreases |ps|, 0
  {
    if ps == [] then [] else Before(ps[..|ps| - 1], sep) + ps[|ps| - 1]
  }

  /** The pieces, each followed by the separator. */
  function Before(ps: seq<Text>, sep: nat := COMMA): Text
    decreases |ps|, 1
  {
    if ps == [] then [] else Join(ps, sep) + [sep]
  }

  lemma JoinSnoc(ps: seq<Text>, p: Text, sep: nat)
    ensures Join(ps + [p], sep) == Before(ps, sep) + p
  {
    assert (ps + [p])[..|ps|] == ps;
  }

  /** Matched brackets and no comma outside them: what a split leaves in one piece. */
  predicate Plain(p: Text)
  {
    ScanFrom(START, p) == Scan(0, [], p)
  }

  predicate AllPlain(ps: seq<Text>)
  {
    forall i :: 0 <= i < |ps| ==> Plain(ps[i])
  }

  lemma ScanSnoc(c: Scan, s: Text, ch: nat)
    ensures ScanFrom(c, s + [ch]) == Step(ScanFrom(c, s), ch)
  {
    var t := s + [ch];
    assert t[..|t| - 1] == s && t[|t| - 1] == ch;
  }

  lemma {:induction false} ScanAppend(c: Scan, s: Text, t: Text)
    ensures ScanFrom(c, s + t) == ScanFrom(ScanFrom(c, s), t)
  {
    if t == [] {
      assert s + t == s;
    } else {
      ScanAppend(c, s, t[..|t| - 1]);
      assert (s + t)[..|s + t| - 1] == s + t[..|t| - 1];
    }
  }

  /** One character and a further text after a scanned text. */
  lemma ScanNext(c: Scan, s: Text, ch: nat, next: Scan, t: Text)
    requires Step(ScanFrom(c, s), ch) == next
    ensures ScanFrom(c, s + [ch] + t) == ScanFrom(next, t)
  {
    ScanSnoc(c, s, ch);
    ScanAppend(c, s + [ch], t);
  }

  lemma StepAfter(ps: seq<Text>, c: Scan, ch: nat)
    ensures c.Bad? || Step(c, ch).Bad? ==>
      c.Bad? || Step(Scan(c.depth, ps + c.done, c.cur), ch) == Bad
    ensures c.Scan? && Step(c, ch).Scan? ==>
      Step(Scan(c.depth, ps + c.done, c.cur), ch)
      == Scan(Step(c, ch).depth, ps + Step(c, ch).done, Step(c, ch).cur)
  {
    if c.Scan? {
      assert ps + c.done + [c.cur] == ps + (c.done + [c.cur]);
    }
  }

  /** What was split off before does not matter to the scan. */
  lemma {:induction false} ScanAfter(ps: seq<Text>, s: Text)
    ensures var c := ScanFrom(START, s);
            ScanFrom(Scan(0, ps, []), s) == if c.Bad? then Bad else Scan(c.depth, ps + c.done, c.cur)
  {
    if s == [] {
      assert ps + [] == ps;
    } else {
      ScanAfter(ps, s[..|s| - 1]);
      StepAfter(ps, ScanFrom(START, s[..|s| - 1]), s[|s| - 1]);
    }
  }

  lemma {:induction false} SplitOfJoin(ps: seq<Text>)
    requires ps != [] && AllPlain(ps)
    ensures ScanFrom(START, Join(ps)) == Scan(0, ps[..|ps| - 1], ps[|ps| - 1])
  {
    var front, p := ps[..|ps| - 1], ps[|ps| - 1];
    if front == [] {
      assert Join(ps) == p;
    } else {
      SplitOfJoin(front);
      assert front[..|front| - 1] + [front[|front| - 1]] == front;
      ScanAfter(front, p);
      ScanNext(START, Join(front), COMMA, Scan(0, front, []), p);
    }
  }

  /** All finished pieces are plain, and the growing one alone scans to the present depth. */
  predicate PiecesOk(c: Scan)
  {
    c.Scan? ==> AllPlain(c.done) && ScanFrom(START, c.cur) == Scan(c.depth, [], c.cur)
  }

  lemma StepOk(c: Scan, ch: nat)
    requires PiecesOk(c)
    ensures PiecesOk(Step(c, ch))
  {
    if c.Scan? {
      ScanSnoc(START, c.cur, ch);
    }
  }

  lemma {:induction false} ScanOk(s: Text)
    ensures PiecesOk(ScanFrom(START, s))
  {
    if s != [] {
      ScanOk(s[..|s| - 1]);
      StepOk(ScanFrom(START, s[..|s| - 1]), s[|s| - 1]);
    }
  }

  lemma PiecesPlain(s: Text)
    requires Split(s).Some?
    ensures AllPlain(Split(s).value)
  {
    ScanOk(s);
  }

  /** Splitting inverts joining exactly when every piece is plain. */
  lemma SplitInvertsJoin(ps: seq<Text>)
    requires ps != []
    ensures Split(Join(ps)) == Some(ps) <==> AllPlain(ps)
  {
    if AllPlain(ps) {
      SplitOfJoin(ps);
      assert ps[..|ps| - 1] + [ps[|ps| - 1]] == ps;
    }
    if Split(Join(ps)).Some? {
      PiecesPlain(Join(ps));
    }
  }

  /** What a step appends to the joined pieces. */
  lemma StepJoin(c: Scan, ch: nat, sep: nat)
    requires c.Scan? && Step(c, ch).Scan?
    ensures Join(Pieces(Step(c, ch)), sep) == Join(Pieces(c), sep) + [if ch == COMMA && c.depth == 0 then sep else ch]
  {
    var next := Step(c, ch);
    JoinSnoc(c.done, c.cur, sep);
    JoinSnoc(next.done, next.cur, sep);
  }

  /** Joining inverts splitting. */
  lemma {:induction false} JoinOfPieces(s: Text)
    ensures var c := ScanFrom(START, s); c.Scan? ==> Join(Pieces(c)) == s
  {
    if s == [] {
      assert Join([[]]) == [];
    } else {
      var c := ScanFrom(START, s[..|s| - 1]);
      JoinOfPieces(s[..|s| - 1]);
      if c.Scan? && Step(c, s[|s| - 1]).Scan? {
        StepJoin(c, s[|s| - 1], COMMA);
        assert s == s[..|s| - 1] + [s[|s| - 1]];
      }
    }
  }

  // ----- the split in characters -----

  /** No bracket and no comma. */
  predicate Ordinary(s: Text)
  {
    forall i :: 0 <= i < |s| ==> s[i] !in {40, 41, 44}
  }

  lemma {:induction false} ScanOrdinary(c: Scan, s: Text)
    requires c.Scan? && Ordinary(s)
    ensures ScanFrom(c, s) == Scan(c.depth, c.done, c.cur + s)
  {
    if s == [] {
      assert c.cur + s == c.cur;
    } else {
      var n := |s| - 1;
      ScanOrdinary(c, s[..n]);
      assert c.cur + s == c.cur + s[..n] + [s[n]];
    }
  }

  lemma ScanOne(c: Scan, ch: nat)
    ensures ScanFrom(c, [ch]) == Step(c, ch)
  {
    assert [ch][..0] == [];
  }

  /** An ordinary text, one more character and another ordinary text. */
  lemma ScanAround(c: Scan, a: Text, ch: nat, b: Text)
    requires c.Scan? && Ordinary(a) && Ordinary(b)
    ensures ScanFrom(c, a + [ch] + b) ==
      var d := Step(Scan(c.depth, c.done, c.cur + a), ch); if d.Bad? then Bad else Scan(d.depth, d.done, d.cur + b)
  {
    var d := Step(Scan(c.depth, c.done, c.cur + a), ch);
    ScanOrdinary(c, a);
    ScanOne(ScanFrom(c, a), ch);
    ScanAppend(c, a, [ch]);
    ScanAppend(c, a + [ch], b);
    if d.Bad? {
      BadStays(b);
    } else {
      ScanOrdinary(d, b);
    }
  }

  lemma SplitComma(a: Text, b: Text)
    requires Ordinary(a) && Ordinary(b)
    ensures Split(a + [44] + b) == Some([a, b])
  {
    ScanAround(START, a, 44, b);
    assert [] + a == a && [] + b == b && [] + [a] == [a];
    assert ScanFrom(START, a + [44] + b) == Scan(0, [a], b);
    assert [a] + [b] == [a, b];
  }

  lemma SplitUnmatched(a: Text, b: Text)
    requires Ordinary(a) && Ordinary(b)
    ensures Split(a + [40] + b) == None && Split(a + [41] + b) == None
  {
    ScanAround(START, a, 40, b);
    ScanAround(START, a, 41, b);
  }

  lemma SplitBracketed(a: Text, b: Text)
    requires Ordinary(a) && Ordinary(b)
    ensures Split([40] + (a + [44] + b) + [41]) == Some([[40] + (a + [44] + b) + [41]])
  {
    var s := a + [44] + b;
    ScanOne(START, 40);
    assert [] + [40] == [40];
    ScanAround(Scan(1, [], [40]), a, 44, b);
    assert [40] + a + [44] + b == [40] + s;
    ScanAppend(START, [40], s);
    ScanSnoc(START, [40] + s, 41);
    assert ScanFrom(START, [40] + s) == Scan(1, [], [40] + s);
    PlainPiece([40] + s + [41]);
  }

  /** A comma splits, except within brackets, and a bracket without its partner spoils the text. */
  lemma SplitInCharacters(a: Text, b: Text)
    requires Ordinary(a) && Ordinary(b)
    ensures Split(a) == Some([a])
    ensures Split(a + [44] + b) == Some([a, b])
    ensures Split(a + [40] + b) == None && Split(a + [41] + b) == None
    ensures Split([40] + (a + [44] + b) + [41]) == Some([[40] + (a + [44] + b) + [41]])
  {
    ScanOrdinary(START, a);
    assert [] + a == a;
    PlainPiece(a);
    SplitComma(a, b);
    SplitUnmatched(a, b);
    SplitBracketed(a, b);
  }

  lemma PlainPiece(t: Text)
    requires ScanFrom(START, t) == Scan(0, [], t)
    ensures Split(t) == Some([t])
  {
    assert [] + [t] == [t];
  }

  // ----- SplitRacStr in place -----

  /** A C string: no NUL before its end. */
  predicate NoNul(s: Text)
  {
    forall i :: 0 <= i < |s| ==> s[i] != 0
  }

  lemma {:induction false} BadStays(s: Text)
    ensures ScanFrom(Bad, s) == Bad
  {
    if s != [] {
      BadStays(s[..|s| - 1]);
    }
  }

  lemma BadPrefix(s: Text, i: nat)
    requires i <= |s| && ScanFrom(START, s[..i]) == Bad
    ensures Split(s) == None
  {
    ScanAppend(START, s[..i], s[i..]);
    BadStays(s[i..]);
    assert s == s[..i] + s[i..];
  }

  lemma PrefixStep(s: Text, i: nat)
    requires i < |s|
    ensures ScanFrom(START, s[..i + 1]) == Step(ScanFrom(START, s[..i]), s[i])
  {
    assert s[..i + 1] == s[..i] + [s[i]];
    ScanSnoc(START, s[..i], s[i]);
  }

  /** What the scanner leaves in the cell of a character. */
  function Left(c: Scan, ch: nat): nat
  {
    if c.Scan? && ch == COMMA && c.depth == 0 then 0 else ch
  }

  /** The buffer while i characters are scanned: the pieces with NULs between them, then the rest of the text. */
  predicate Cut(cells: seq<nat>, s: Text, i: nat, c: Scan)
    requires i <= |s|
  {
    && c == ScanFrom(START, s[..i]) && c.Scan?
    && |cells| == |s| + 1 && cells[..i] == Join(Pieces(c), 0) && cells[i..] == s[i..] + [0]
  }

  lemma CutStart(s: Text)
    ensures Cut(s + [0], s, 0, START)
  {
    assert s[..0] == [] && s[0..] == s && Join(Pieces(START), 0) == [];
    assert (s + [0])[..0] == [] && (s + [0])[0..] == s + [0];
  }

  lemma RestStep(cells: seq<nat>, s: Text, i: nat, x: nat)
    requires i < |s| && |cells| == |s| + 1 && cells[i..] == s[i..] + [0]
    ensures var next := cells[i := x]; next[i + 1..] == s[i + 1..] + [0] && next[..i + 1] == cells[..i] + [x]
  {
    assert cells[i + 1..] == cells[i..][1..];
    assert s[i..][1..] == s[i + 1..];
  }

  /** Keeping a character, or writing a NUL over a comma outside brackets, keeps the buffer cut. */
  lemma CutStep(cells: seq<nat>, s: Text, i: nat, c: Scan, next: Scan)
    requires i < |s| && Cut(cells, s, i, c) && next == Step(c, s[i]) && next.Scan?
    ensures Cut(cells[i := Left(c, s[i])], s, i + 1, next)
  {
    PrefixStep(s, i);
    StepJoin(c, s[i], 0);
    RestStep(cells, s, i, Left(c, s[i]));
  }

  lemma CutCell(cells: seq<nat>, s: Text, i: nat, c: Scan)
    requires i <= |s| && Cut(cells, s, i, c)
    ensures cells[i] == if i < |s| then s[i] else 0
    ensures i == |s| ==> ScanFrom(START, s) == c && cells == Join(Pieces(c), 0) + [0]
  {
    assert cells[i] == cells[i..][0];
    if i == |s| {
      assert s[..i] == s;
      assert cells == cells[..i] + cells[i..];
    }
  }

  /** The pieces lie in the buffer one after another, each ended by a NUL; -1 when the brackets do not match. */
  method SplitRacStr(s: Text) returns (count: int, buf: array<nat>)
    requires NoNul(s)
    ensures fresh(buf)
    ensures count == if Split(s).None? then -1 else |Split(s).value|
    ensures Split(s).Some? ==> buf[..] == Join(Split(s).value, 0) + [0]
  {
    buf := new nat[|s| + 1](i => if 0 <= i < |s| then s[i] else 0);
    assert buf[..] == s + [0];
    CutStart(s);
    count := 1;
    var depth, i := 0, 0;
    ghost var c := START;
    while buf[i] != 0
      invariant 0 <= i <= |s| && buf.Length == |s| + 1
      invariant Cut(buf[..], s, i, c) && count == |c.done| + 1 && depth == c.depth
      decreases |s| - i
    {
      CutCell(buf[..], s, i, c);
      PrefixStep(s, i);
      ghost var was, next := buf[..], Step(c, s[i]);
      if buf[i] == LPAREN {
        depth := depth + 1;
      } else if buf[i] == RPAREN {
        depth := depth - 1;
        if depth < 0 {
          BadPrefix(s, i + 1);
          return -1, buf;
        }
      } else if buf[i] == COMMA && depth == 0 {
        buf[i] := 0;
        count := count + 1;
      }
      CutStep(was, s, i, c, next);
      assert buf[..] == was[i := Left(c, s[i])];
      c := next;
      i := i + 1;
    }
    CutCell(buf[..], s, i, c);
    if depth != 0 {
      return -1, buf;
    }
  }
}
