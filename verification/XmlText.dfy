/** Escaping text on printing and unescaping it in place on reading (tinyxml2.cpp). */
module XmlText {
  import opened Wire

  const LF: byte := 10
  const CR: byte := 13
  const HASH: byte := 35
  const AMP: byte := 38
  const SEMICOLON: byte := 59
  const SMALL_X: byte := 120

  const NUM_ENTITIES := 5

  /** The entity table: quot, amp, apos, lt, gt. */
  function Pattern(k: nat): (p: seq<byte>)
    requires k < NUM_ENTITIES
    ensures 2 <= |p| <= 4 && p[0] != HASH && forall i :: 0 <= i < |p| ==> p[i] != SEMICOLON && p[i] != 0
  {
    if k == 0 then [113, 117, 111, 116]
    else if k == 1 then [97, 109, 112]
    else if k == 2 then [97, 112, 111, 115]
    else if k == 3 then [108, 116]
    else [103, 116]
  }

  function Value(k: nat): (c: byte)
    requires k < NUM_ENTITIES
    ensures c != LF && c != CR && c != 0
  {
    if k == 0 then 34 else if k == 1 then 38 else if k == 2 then 39 else if k == 3 then 60 else 62
  }

  // ----- UTF-8 -----

  /** ConvertUTF32ToUTF8: continuation octets carry six bits each; too large a value gives nothing. */
  function Utf8(c: nat): (s: seq<byte>)
    ensures |s| <= 4
  {
    if c < 0x80 then [c]
    else if c < 0x800 then [0xC0 + c / 64, 0x80 + c % 64]
    else if c < 0x10000 then [0xE0 + c / 64 / 64, 0x80 + c / 64 % 64, 0x80 + c % 64]
    else if c < 0x200000 then [0xF0 + c / 64 / 64 / 64, 0x80 + c / 64 / 64 % 64, 0x80 + c / 64 % 64, 0x80 + c % 64]
    else []
  }

  /** The six bits of a continuation octet appended to a value. */
  function More(value: int, b: byte): int
  {
    value * 64 + (b as int - 0x80)
  }

  /** Section 3 of RFC 3629: the value of a sequence of one to four octets, -1 for any other. */
  function FromUtf8(s: seq<byte>): int
  {
    if |s| == 1 && s[0] < 0x80 then s[0]
    else if |s| == 2 && 0xC0 <= s[0] < 0xE0 && Tail(s[1]) then More(s[0] as int - 0xC0, s[1])
    else if |s| == 3 && 0xE0 <= s[0] < 0xF0 && Tail(s[1]) && Tail(s[2]) then
      More(More(s[0] as int - 0xE0, s[1]), s[2])
    else if |s| == 4 && 0xF0 <= s[0] < 0xF8 && Tail(s[1]) && Tail(s[2]) && Tail(s[3]) then
      More(More(More(s[0] as int - 0xF0, s[1]), s[2]), s[3])
    else -1
  }

  predicate Tail(b: byte)
  {
    0x80 <= b < 0xC0
  }

  lemma Utf8Decodes(c: nat)
    ensures FromUtf8(Utf8(c)) == if c < 0x200000 then c else -1
  {
    if 0x80 <= c < 0x200000 {
      SixBits(c);
      if 0x800 <= c {
        SixBits(c / 64);
        if 0x10000 <= c {
          SixBits(c / 64 / 64);
        }
      }
    }
  }

  lemma SixBits(c: nat)
    ensures More(c / 64, 0x80 + c % 64) == c
  {
  }

  /** The octets are written from the last to the first, six bits at a time. */
  method ConvertUtf32ToUtf8(input: nat) returns (output: seq<byte>)
    ensures output == Utf8(input)
  {
    var length := if input < 0x80 then 1 else if input < 0x800 then 2 else if input < 0x10000 then 3
                  else if input < 0x200000 then 4 else 0;
    output := [];
    if length == 0 { return; }
    var c := input;
    if length >= 4 {
      output := [0x80 + c % 64] + output;
      c := c / 64;
    }
    if length >= 3 {
      output := [0x80 + c % 64] + output;
      c := c / 64;
    }
    if length >= 2 {
      output := [0x80 + c % 64] + output;
      c := c / 64;
    }
    var mark := if length == 1 then 0 else if length == 2 then 0xC0 else if length == 3 then 0xE0 else 0xF0;
    output := [c + mark] + output;
  }

  // ----- numeric character references -----

  /** A hexadecimal digit's value; 16 for any other byte. */
  function Digit(b: byte): (d: nat)
    ensures d <= 16
  {
    if 48 <= b <= 57 then b - 48
    else if 97 <= b <= 102 then b - 87
    else if 65 <= b <= 70 then b - 55
    else 16
  }

  predicate AllDigits(s: seq<byte>, lo: nat, hi: nat, base: nat)
    requires hi <= |s|
  {
    forall i :: lo <= i < hi ==> Digit(s[i]) < base
  }

  /** A product of unsigned int. */
  function Scaled(a: nat, b: nat): nat
  {
    a * b % U32
  }

  /** The sum of the digits in s[lo..hi], last first, each scaled by a 32-bit multiplier. */
  function RefValue(s: seq<byte>, lo: nat, hi: nat, base: nat, mult: nat): nat
    requires lo <= hi <= |s|
    decreases hi
  {
    if lo == hi then 0
    else Scaled(mult, Digit(s[hi - 1])) + RefValue(s, lo, hi - 1, base, Scaled(mult, base))
  }

  /** The number the digits in s[lo..hi] write. */
  function Number(s: seq<byte>, lo: nat, hi: nat, base: nat): nat
    requires lo <= hi <= |s|
    decreases hi
  {
    if lo == hi then 0 else Number(s, lo, hi - 1, base) * base + Digit(s[hi - 1])
  }

  /** n digits can be scaled, starting from mult, without passing 32 bits. */
  predicate Fits(mult: nat, base: nat, n: nat)
    decreases n
  {
    n == 0 || (mult * base <= U32 && Fits(mult * base, base, n - 1))
  }

  lemma OneScale(mult: nat, base: nat, d: nat)
    requires mult > 0 && d < base && mult * base <= U32
    ensures Scaled(mult, d) == mult * d && mult * base > 0
  {
    assert mult * d < mult * base;
  }

  lemma Distribute(mult: nat, base: nat, n: nat, d: nat)
    ensures mult * d + mult * base * n == mult * (n * base + d)
  {
  }

  lemma LastScale(base: nat, n: nat)
    requires 2 <= base && Fits(U32, base, n)
    ensures n == 0
  {
  }

  /** While all its digits' scales fit in 32 bits, a reference has the value it writes. */
  lemma {:induction false} RefValueExact(s: seq<byte>, lo: nat, hi: nat, base: nat, mult: nat)
    requires lo <= hi <= |s| && 2 <= base && mult > 0 && AllDigits(s, lo, hi, base)
    requires Fits(mult, base, hi - lo)
    ensures RefValue(s, lo, hi, base, mult) == mult * Number(s, lo, hi, base)
    decreases hi
  {
    if lo < hi {
      var d, next := Digit(s[hi - 1]), mult * base;
      OneScale(mult, base, d);
      RefValueExact(s, lo, hi - 1, base, next);
      Distribute(mult, base, Number(s, lo, hi - 1, base), d);
      if next == U32 {
        LastScale(base, hi - 1 - lo);
      } else {
        assert Scaled(mult, base) == next;
      }
    }
  }

  lemma FitsFewer(mult: nat, base: nat, n: nat, m: nat)
    requires m <= n && Fits(mult, base, n)
    ensures Fits(mult, base, m)
    decreases n
  {
  }

  lemma FitsHere()
    ensures Fits(1, 16, 8) && Fits(1, 10, 9)
  {
    assert Fits(0x1000_0000, 16, 1);
    assert Fits(0x10_0000, 16, 3);
    assert Fits(0x1000, 16, 5);
    assert Fits(100_000_000, 10, 1);
    assert Fits(1_000_000, 10, 3);
    assert Fits(10_000, 10, 5);
    assert Fits(100, 10, 7);
  }

  /** Up to eight hexadecimal or nine decimal digits are read as the number they write. */
  lemma ShortRefExact(s: seq<byte>, lo: nat, hi: nat, base: nat)
    requires lo <= hi <= |s| && AllDigits(s, lo, hi, base)
    requires (base == 16 && hi - lo <= 8) || (base == 10 && hi - lo <= 9)
    ensures RefValue(s, lo, hi, base, 1) == Number(s, lo, hi, base)
  {
    FitsHere();
    FitsFewer(1, base, if base == 16 then 8 else 9, hi - lo);
    RefValueExact(s, lo, hi, base, 1);
  }

  /** The first position of ch from i on, or the end. */
  function Find(s: seq<byte>, i: nat, ch: byte): (k: nat)
    requires i <= |s|
    ensures i <= k <= |s| && (k < |s| ==> s[k] == ch)
    ensures forall j :: i <= j < k ==> s[j] != ch
    decreases |s| - i
  {
    if i == |s| || s[i] == ch then i else Find(s, i + 1, ch)
  }

  /** The last position of ch before k, which is at or after i. */
  function FindLast(s: seq<byte>, i: nat, k: nat, ch: byte): (j: nat)
    requires i < k <= |s| && s[i] == ch
    ensures i <= j < k && s[j] == ch
    ensures forall m :: j < m < k ==> s[m] != ch
  {
    if s[k - 1] == ch then k - 1 else FindLast(s, i, k - 1, ch)
  }

  datatype Reference = NoReference | Reference(next: nat, utf8: seq<byte>)

  /** The number between the last mark and the semicolon. */
  function RefFrom(s: seq<byte>, mark: nat, semicolon: nat, base: nat): (r: Reference)
    requires mark < semicolon < |s|
    ensures r.Reference? ==> r.next == semicolon + 1 && |r.utf8| <= semicolon - mark + 2
  {
    if AllDigits(s, mark + 1, semicolon, base) then
      Reference(semicolon + 1, Utf8(RefValue(s, mark + 1, semicolon, base, 1)))
    else NoReference
  }

  /** GetCharacterRef for '&' at p followed by '#'. */
  function GetReference(s: seq<byte>, p: nat): (r: Reference)
    requires p + 1 < |s| && s[p + 1] == HASH
    ensures r.Reference? ==> p < r.next <= |s| && |r.utf8| <= r.next - p
  {
    if p + 2 == |s| then Reference(p + 1, [])
    else if s[p + 2] == SMALL_X then
      if p + 3 == |s| then NoReference
      else
        var semicolon := Find(s, p + 3, SEMICOLON);
        if semicolon == |s| then NoReference else RefFrom(s, FindLast(s, p + 2, semicolon, SMALL_X), semicolon, 16)
    else
      var semicolon := Find(s, p + 2, SEMICOLON);
      if semicolon == |s| then NoReference else RefFrom(s, FindLast(s, p + 1, semicolon, HASH), semicolon, 10)
  }

  // ----- unescaping -----

  /** An entity of the table, with its semicolon, after the '&' at p. */
  predicate EntityAt(s: seq<byte>, p: nat, k: nat)
    requires k < NUM_ENTITIES
  {
    var n := |Pattern(k)|;
    p + n + 1 < |s| && s[p + 1..p + 1 + n] == Pattern(k) && s[p + n + 1] == SEMICOLON
  }

  /** The first matching entity from k on, or NUM_ENTITIES. */
  function FindEntity(s: seq<byte>, p: nat, k: nat): (r: nat)
    requires k <= NUM_ENTITIES
    ensures k <= r <= NUM_ENTITIES && (r < NUM_ENTITIES ==> EntityAt(s, p, r))
    ensures forall j :: k <= j < r ==> !EntityAt(s, p, j)
    decreases NUM_ENTITIES - k
  {
    if k == NUM_ENTITIES || EntityAt(s, p, k) then k else FindEntity(s, p, k + 1)
  }

  /** The read position and the bytes written so far. */
  datatype Cursor = Cursor(p: nat, out: seq<byte>)

  predicate ByteAt(s: seq<byte>, i: nat, b: byte)
  {
    i < |s| && s[i] == b
  }

  /**
   * One round of GetStr's loop. An '&' that starts nothing known moves the write position over the byte
   * already there, which is the text's own byte at that position.
   */
  function Next(s: seq<byte>, c: Cursor, newlines: bool, entities: bool): (r: Cursor)
    requires |c.out| <= c.p < |s|
    ensures c.p < r.p <= |s| && |r.out| <= r.p && |c.out| <= |r.out| && r.out[..|c.out|] == c.out
  {
    var p, out := c.p, c.out;
    if newlines && s[p] == CR then
      Cursor(if ByteAt(s, p + 1, LF) then p + 2 else p + 1, out + [LF])
    else if newlines && s[p] == LF then
      Cursor(if ByteAt(s, p + 1, CR) then p + 2 else p + 1, out + [LF])
    else if entities && s[p] == AMP then
      if ByteAt(s, p + 1, HASH) then
        match GetReference(s, p)
        case NoReference => Cursor(p + 1, out + [AMP])
        case Reference(next, utf8) => Cursor(next, out + utf8)
      else
        var k := FindEntity(s, p, 0);
        if k < NUM_ENTITIES then Cursor(p + |Pattern(k)| + 2, out + [Value(k)])
        else Cursor(p + 1, out + [s[|out|]])
    else Cursor(p + 1, out + [s[p]])
  }

  function Run(s: seq<byte>, c: Cursor, newlines: bool, entities: bool): (r: seq<byte>)
    requires |c.out| <= c.p <= |s|
    ensures |r| <= |s|
    decreases |s| - c.p
  {
    if c.p == |s| then c.out else Run(s, Next(s, c, newlines, entities), newlines, entities)
  }

  function Unescaped(s: seq<byte>, newlines: bool := true, entities: bool := true): (r: seq<byte>)
    ensures |r| <= |s|
  {
    Run(s, Cursor(0, []), newlines, entities)
  }

  // ----- what a reference stands for -----

  lemma DigitCharacters(b: byte)
    ensures 48 <= b <= 57 ==> Digit(b) == b as int - 48
    ensures 97 <= b <= 102 ==> Digit(b) == b as int - 87
    ensures 65 <= b <= 70 ==> Digit(b) == b as int - 55
    ensures Digit(b) < 10 <==> 48 <= b <= 57
    ensures Digit(b) < 16 <==> 48 <= b <= 57 || 97 <= b <= 102 || 65 <= b <= 70
  {
  }

  predicate DecimalDigits(s: seq<byte>, lo: nat, hi: nat)
    requires hi <= |s|
  {
    forall i :: lo <= i < hi ==> 48 <= s[i] <= 57
  }

  predicate HexDigits(s: seq<byte>, lo: nat, hi: nat)
    requires hi <= |s|
  {
    forall i :: lo <= i < hi ==> 48 <= s[i] <= 57 || 97 <= s[i] <= 102 || 65 <= s[i] <= 70
  }

  predicate NoSemicolon(s: seq<byte>, lo: nat, hi: nat)
    requires hi <= |s|
  {
    forall i :: lo <= i < hi ==> s[i] != 59
  }

  /** "&#" at p, the first semicolon at hi and only decimal digits between the last '#' before it, at m, and it. */
  predicate DecimalAt(s: seq<byte>, p: nat, m: nat, hi: nat)
  {
    && p < m < hi < |s| && s[p] == 38 && s[p + 1] == 35 && s[p + 2] != 120
    && s[m] == 35 && s[hi] == 59 && NoSemicolon(s, p + 2, hi) && DecimalDigits(s, m + 1, hi) && hi - m <= 10
  }

  /** "&#x" at p, the first semicolon at hi and only hexadecimal digits between the last 'x' before it, at m, and it. */
  predicate HexAt(s: seq<byte>, p: nat, m: nat, hi: nat)
  {
    && p + 1 < m < hi < |s| && s[p] == 38 && s[p + 1] == 35 && s[p + 2] == 120
    && s[m] == 120 && s[hi] == 59 && NoSemicolon(s, p + 3, hi) && HexDigits(s, m + 1, hi)
  }

  /** The last eight digits behind m, or all of them. */
  function LastEight(m: nat, hi: nat): (from: nat)
    requires m < hi
    ensures m < from <= hi
  {
    if hi - m <= 9 then m + 1 else hi - 8
  }

  /** The scale is 0 after n digits. */
  predicate Vanishes(mult: nat, base: nat, n: nat)
    decreases n
  {
    if n == 0 then mult == 0 else Vanishes(Scaled(mult, base), base, n - 1)
  }

  lemma {:induction false} NothingMore(s: seq<byte>, lo: nat, hi: nat, base: nat)
    requires lo <= hi <= |s|
    ensures RefValue(s, lo, hi, base, 0) == 0
    decreases hi
  {
    if lo < hi {
      NothingMore(s, lo, hi - 1, base);
    }
  }

  /** Digits beyond those do not count. */
  lemma {:induction false} BeyondVanished(s: seq<byte>, lo: nat, hi: nat, base: nat, mult: nat, n: nat)
    requires lo + n <= hi <= |s| && Vanishes(mult, base, n)
    ensures RefValue(s, lo, hi, base, mult) == RefValue(s, hi - n, hi, base, mult)
    decreases n
  {
    if n == 0 {
      NothingMore(s, lo, hi, base);
    } else {
      BeyondVanished(s, lo, hi - 1, base, Scaled(mult, base), n - 1);
    }
  }

  lemma EightVanish()
    ensures Vanishes(1, 16, 8)
  {
    assert Vanishes(0x1000_0000, 16, 1);
    assert Vanishes(0x100_0000, 16, 2);
    assert Vanishes(0x1_0000, 16, 4);
    assert Vanishes(0x100, 16, 6);
  }

  lemma FindIs(s: seq<byte>, i: nat, ch: byte, k: nat)
    requires i <= k <= |s| && (k < |s| ==> s[k] == ch) && forall j :: i <= j < k ==> s[j] != ch
    ensures Find(s, i, ch) == k
  {
  }

  lemma FindLastIs(s: seq<byte>, i: nat, k: nat, ch: byte, m: nat)
    requires i <= m < k <= |s| && s[i] == ch && s[m] == ch && forall j :: m < j < k ==> s[j] != ch
    ensures FindLast(s, i, k, ch) == m
  {
  }

  lemma DecimalReference(s: seq<byte>, p: nat, m: nat, hi: nat)
    requires DecimalAt(s, p, m, hi)
    ensures GetReference(s, p) == Reference(hi + 1, Utf8(Number(s, m + 1, hi, 10)))
  {
    FindIs(s, p + 2, SEMICOLON, hi);
    FindLastIs(s, p + 1, hi, HASH, m);
    ShortRefExact(s, m + 1, hi, 10);
  }

  lemma HexReference(s: seq<byte>, p: nat, m: nat, hi: nat)
    requires HexAt(s, p, m, hi)
    ensures GetReference(s, p) == Reference(hi + 1, Utf8(Number(s, LastEight(m, hi), hi, 16)))
  {
    FindIs(s, p + 3, SEMICOLON, hi);
    FindLastIs(s, p + 2, hi, SMALL_X, m);
    if hi - m > 9 {
      EightVanish();
      BeyondVanished(s, m + 1, hi, 16, 1, 8);
    }
    ShortRefExact(s, LastEight(m, hi), hi, 16);
  }

  /**
   * A decimal reference of up to nine digits is replaced by octets that decode to the number it writes,
   * and by nothing when that has no octets.
   */
  lemma DecimalRead(s: seq<byte>, c: Cursor, newlines: bool, m: nat, hi: nat)
    requires |c.out| <= c.p && DecimalAt(s, c.p, m, hi)
    ensures var r, n := Next(s, c, newlines, true), Number(s, m + 1, hi, 10);
            && r.p == hi + 1
            && FromUtf8(r.out[|c.out|..]) == (if n < 0x200000 then n else -1)
            && (n >= 0x200000 ==> r.out == c.out)
  {
    var n := Number(s, m + 1, hi, 10);
    DecimalReference(s, c.p, m, hi);
    ReferenceMove(s, c, newlines, hi + 1, Utf8(n));
    Utf8Decodes(n);
    Behind(c.out, Utf8(n));
  }

  /** A hexadecimal reference likewise, of which only the last eight digits count. */
  lemma HexRead(s: seq<byte>, c: Cursor, newlines: bool, m: nat, hi: nat)
    requires |c.out| <= c.p && HexAt(s, c.p, m, hi)
    ensures var r, n := Next(s, c, newlines, true), Number(s, LastEight(m, hi), hi, 16);
            && r.p == hi + 1
            && FromUtf8(r.out[|c.out|..]) == (if n < 0x200000 then n else -1)
            && (n >= 0x200000 ==> r.out == c.out)
  {
    var n := Number(s, LastEight(m, hi), hi, 16);
    HexReference(s, c.p, m, hi);
    ReferenceMove(s, c, newlines, hi + 1, Utf8(n));
    Utf8Decodes(n);
    Behind(c.out, Utf8(n));
  }

  /** A carriage return, a line feed or a pair of them, either way round, is one line feed. */
  lemma LineEndsRead(s: seq<byte>, c: Cursor, entities: bool)
    requires |c.out| <= c.p < |s|
    ensures s[c.p] == 13 || s[c.p] == 10 ==>
      var pair := c.p + 1 < |s| && s[c.p + 1] == 23 - s[c.p] as int;
      && Next(s, c, true, entities) == Cursor(if pair then c.p + 2 else c.p + 1, c.out + [10])
      && Next(s, c, false, entities) == Cursor(c.p + 1, c.out + [s[c.p]])
    ensures s[c.p] !in {10, 13, 38} || (s[c.p] == 38 && !entities) ==>
      forall newlines :: Next(s, c, newlines, entities) == Cursor(c.p + 1, c.out + [s[c.p]])
  {
  }

  lemma ReferenceMove(s: seq<byte>, c: Cursor, newlines: bool, next: nat, u: seq<byte>)
    requires |c.out| <= c.p && c.p + 1 < |s| && s[c.p] == 38 && s[c.p + 1] == 35
    requires GetReference(s, c.p) == Reference(next, u)
    ensures Next(s, c, newlines, true) == Cursor(next, c.out + u)
  {
  }

  lemma Behind(out: seq<byte>, more: seq<byte>)
    ensures (out + more)[|out|..] == more && (more == [] ==> out + more == out)
  {
  }

  /** Without a semicolon the '&' is kept and the text behind it is read on. */
  lemma OpenKept(s: seq<byte>, c: Cursor, newlines: bool)
    requires |c.out| <= c.p && c.p + 2 < |s| && s[c.p] == 38 && s[c.p + 1] == 35 && NoSemicolon(s, c.p + 2, |s|)
    ensures Next(s, c, newlines, true) == Cursor(c.p + 1, c.out + [38])
  {
    FindIs(s, c.p + 2, SEMICOLON, |s|);
    if s[c.p + 2] == SMALL_X && c.p + 3 < |s| {
      FindIs(s, c.p + 3, SEMICOLON, |s|);
    }
  }

  /** So it is with a byte j other than a decimal digit between the last '#', at m, and the first semicolon. */
  lemma NotDecimalKept(s: seq<byte>, c: Cursor, newlines: bool, m: nat, j: nat, hi: nat)
    requires |c.out| <= c.p < m < j < hi < |s| && s[c.p] == 38 && s[c.p + 1] == 35 && s[c.p + 2] != 120
    requires s[hi] == 59 && NoSemicolon(s, c.p + 2, hi)
    requires s[m] == 35 && (forall i :: m < i < hi ==> s[i] != 35) && !(48 <= s[j] <= 57)
    ensures Next(s, c, newlines, true) == Cursor(c.p + 1, c.out + [38])
  {
    FindIs(s, c.p + 2, SEMICOLON, hi);
    FindLastIs(s, c.p + 1, hi, HASH, m);
    assert !AllDigits(s, m + 1, hi, 10);
    KeptMove(s, c, newlines);
  }

  /** And behind "&#x" with one other than a hexadecimal digit between the last 'x' and the semicolon. */
  lemma NotHexKept(s: seq<byte>, c: Cursor, newlines: bool, m: nat, j: nat, hi: nat)
    requires |c.out| <= c.p && c.p + 1 < m < j < hi < |s| && s[c.p] == 38 && s[c.p + 1] == 35 && s[c.p + 2] == 120
    requires s[hi] == 59 && NoSemicolon(s, c.p + 3, hi)
    requires s[m] == 120 && (forall i :: m < i < hi ==> s[i] != 120) && !HexDigits(s, j, j + 1)
    ensures Next(s, c, newlines, true) == Cursor(c.p + 1, c.out + [38])
  {
    FindIs(s, c.p + 3, SEMICOLON, hi);
    FindLastIs(s, c.p + 2, hi, SMALL_X, m);
    DigitCharacters(s[j]);
    assert !AllDigits(s, m + 1, hi, 16);
    KeptMove(s, c, newlines);
  }

  lemma KeptMove(s: seq<byte>, c: Cursor, newlines: bool)
    requires |c.out| <= c.p && c.p + 1 < |s| && s[c.p] == 38 && s[c.p + 1] == 35 && GetReference(s, c.p).NoReference?
    ensures Next(s, c, newlines, true) == Cursor(c.p + 1, c.out + [38])
  {
  }

  /** Two references to one character, U+4E2D: "&#20013;" and "&#x4e2d;". */
  lemma DecimalChinese(s: seq<byte>, newlines: bool)
    requires s == [38, 35, 50, 48, 48, 49, 51, 59]
    ensures Next(s, Cursor(0, []), newlines, true) == Cursor(8, [0xE4, 0xB8, 0xAD])
  {
    assert Number(s, 2, 4, 10) == 20;
    assert Number(s, 2, 6, 10) == 2001;
    assert Number(s, 2, 7, 10) == 0x4E2D;
    DecimalReference(s, 0, 1, 7);
    ReferenceMove(s, Cursor(0, []), newlines, 8, Utf8(0x4E2D));
  }

  lemma HexChinese(s: seq<byte>, newlines: bool)
    requires s == [38, 35, 120, 52, 101, 50, 100, 59]
    ensures Next(s, Cursor(0, []), newlines, true) == Cursor(8, [0xE4, 0xB8, 0xAD])
  {
    assert Number(s, 3, 5, 16) == 0x4E;
    assert Number(s, 3, 7, 16) == 0x4E2D;
    HexReference(s, 0, 2, 7);
    ReferenceMove(s, Cursor(0, []), newlines, 8, Utf8(0x4E2D));
  }

  lemma NamedEntity(s: seq<byte>, c: Cursor, newlines: bool, k: nat, name: seq<byte>)
    requires |c.out| <= c.p < |s| && s[c.p] == 38 && k < 5 && Pattern(k) == name && name + [59] <= s[c.p + 1..]
    ensures Next(s, c, newlines, true) == Cursor(c.p + |name| + 2, c.out + [Value(k)])
  {
    var t, n := s[c.p + 1..], |name|;
    assert t[n] == 59 && t[..n] == name && t[0] == name[0];
    assert s[c.p + 1..c.p + 1 + n] == t[..n] && s[c.p + n + 1] == t[n] && s[c.p + 1] == t[0];
    EntityFound(s, c.p, k);
  }

  /** The five entities: in any text, their letters and semicolon behind an '&' give the one character. */
  lemma EntitiesRead(s: seq<byte>, c: Cursor, newlines: bool, name: seq<byte>)
    requires |c.out| <= c.p < |s| && s[c.p] == 38 && name + [59] <= s[c.p + 1..]
    ensures name == [113, 117, 111, 116] ==> Next(s, c, newlines, true) == Cursor(c.p + 6, c.out + [34])
    ensures name == [97, 109, 112] ==> Next(s, c, newlines, true) == Cursor(c.p + 5, c.out + [38])
    ensures name == [97, 112, 111, 115] ==> Next(s, c, newlines, true) == Cursor(c.p + 6, c.out + [39])
    ensures name == [108, 116] ==> Next(s, c, newlines, true) == Cursor(c.p + 4, c.out + [60])
    ensures name == [103, 116] ==> Next(s, c, newlines, true) == Cursor(c.p + 4, c.out + [62])
  {
    if name == [113, 117, 111, 116] {
      NamedEntity(s, c, newlines, 0, name);
    } else if name == [97, 109, 112] {
      NamedEntity(s, c, newlines, 1, name);
    } else if name == [97, 112, 111, 115] {
      NamedEntity(s, c, newlines, 2, name);
    } else if name == [108, 116] {
      NamedEntity(s, c, newlines, 3, name);
    } else if name == [103, 116] {
      NamedEntity(s, c, newlines, 4, name);
    }
  }

  // ----- what unescaping is meant to give -----

  /** An '&' that starts no reference and no entity of the table. */
  predicate Stray(s: seq<byte>, p: nat, entities: bool)
    requires p < |s|
  {
    entities && s[p] == AMP && !ByteAt(s, p + 1, HASH) && FindEntity(s, p, 0) == NUM_ENTITIES
  }

  /** An "&#" that ends the text. */
  predicate CutOff(s: seq<byte>, p: nat, entities: bool)
    requires p < |s|
  {
    entities && s[p] == AMP && ByteAt(s, p + 1, HASH) && p + 2 == |s|
  }

  /** The round the loop should do: an '&' that stands for nothing stands for itself. */
  function Meant(s: seq<byte>, c: Cursor, newlines: bool, entities: bool): (r: Cursor)
    requires |c.out| <= c.p < |s|
    ensures c.p < r.p <= |s| && |r.out| <= r.p && |c.out| <= |r.out| && r.out[..|c.out|] == c.out
  {
    if Stray(s, c.p, entities) || CutOff(s, c.p, entities) then Cursor(c.p + 1, c.out + [AMP])
    else Next(s, c, newlines, entities)
  }

  function RunMeant(s: seq<byte>, c: Cursor, newlines: bool, entities: bool): (r: seq<byte>)
    requires |c.out| <= c.p <= |s|
    ensures |c.out| <= |r| <= |s| && r[..|c.out|] == c.out
    decreases |s| - c.p
  {
    if c.p == |s| then c.out else RunMeant(s, Meant(s, c, newlines, entities), newlines, entities)
  }

  /** Every stray '&' still to come is read where the byte under the write pointer is an '&' already. */
  predicate Clean(s: seq<byte>, c: Cursor, newlines: bool, entities: bool)
    requires |c.out| <= c.p <= |s|
    decreases |s| - c.p
  {
    c.p == |s| ||
    (!CutOff(s, c.p, entities) && (Stray(s, c.p, entities) ==> s[|c.out|] == AMP)
     && Clean(s, Next(s, c, newlines, entities), newlines, entities))
  }

  lemma SameEntityMove(s: seq<byte>, c: Cursor, d: Cursor, newlines: bool)
    requires |c.out| <= c.p < |s| && d.p == c.p && |d.out| == |c.out| && s[c.p] == AMP
    ensures var x, y := Next(s, c, newlines, true), Next(s, d, newlines, true);
            x.p == y.p && |x.out| == |y.out| && x.out[|c.out|..] == y.out[|c.out|..]
  {
    if ByteAt(s, c.p + 1, HASH) && GetReference(s, c.p).Reference? {
      var r := GetReference(s, c.p);
      ReferenceMove(s, c, newlines, r.next, r.utf8);
      ReferenceMove(s, d, newlines, r.next, r.utf8);
    }
  }

  /** What was written before does not matter to a round, only how much it was. */
  lemma SameMove(s: seq<byte>, c: Cursor, d: Cursor, newlines: bool, entities: bool)
    requires |c.out| <= c.p < |s| && d.p == c.p && |d.out| == |c.out|
    ensures var x, y := Next(s, c, newlines, entities), Next(s, d, newlines, entities);
            x.p == y.p && |x.out| == |y.out| && x.out[|c.out|..] == y.out[|c.out|..]
  {
    if entities && s[c.p] == AMP {
      SameEntityMove(s, c, d, newlines);
    }
  }

  lemma StrayMove(s: seq<byte>, c: Cursor, newlines: bool, entities: bool)
    requires |c.out| <= c.p < |s| && Stray(s, c.p, entities)
    ensures Next(s, c, newlines, entities) == Cursor(c.p + 1, c.out + [s[|c.out|]])
  {
  }

  /** The last byte, when it starts nothing, is copied. */
  lemma LastByte(s: seq<byte>, c: Cursor, newlines: bool, entities: bool)
    requires |c.out| <= c.p && c.p + 1 == |s| && s[c.p] == HASH
    ensures Run(s, c, newlines, entities) == c.out + [HASH]
    ensures RunMeant(s, c, newlines, entities) == c.out + [HASH]
  {
    var x := Cursor(|s|, c.out + [HASH]);
    assert Next(s, c, newlines, entities) == x && Meant(s, c, newlines, entities) == x;
    assert Run(s, x, newlines, entities) == x.out && RunMeant(s, x, newlines, entities) == x.out;
  }

  lemma CutOffMove(s: seq<byte>, c: Cursor, newlines: bool, entities: bool)
    requires |c.out| <= c.p < |s| && CutOff(s, c.p, entities)
    ensures Next(s, c, newlines, entities) == Cursor(c.p + 1, c.out)
    ensures Meant(s, c, newlines, entities) == Cursor(c.p + 1, c.out + [AMP])
  {
  }

  /** Of an "&#" that ends the text only the '#' is left. */
  lemma CutOffLost(s: seq<byte>, c: Cursor, newlines: bool, entities: bool)
    requires |c.out| <= c.p && c.p + 2 == |s| && entities && s[c.p] == 38 && s[c.p + 1] == 35
    ensures Run(s, c, newlines, entities) == c.out + [35]
    ensures RunMeant(s, c, newlines, entities) == c.out + [38, 35]
  {
    CutOffMove(s, c, newlines, entities);
    LastByte(s, Cursor(c.p + 1, c.out), newlines, entities);
    LastByte(s, Cursor(c.p + 1, c.out + [AMP]), newlines, entities);
    assert c.out + [AMP] + [HASH] == c.out + [AMP, HASH];
  }

  lemma SplitEqual(x: seq<byte>, y: seq<byte>, k: nat)
    requires k <= |x| == |y| && x[k..] == y[k..]
    ensures x == y <==> x[..k] == y[..k]
  {
    assert x == x[..k] + x[k..] && y == y[..k] + y[k..];
  }

  /** The loop and what is meant agree exactly when they agreed so far and the rest is clean. */
  lemma {:induction false} MeantExactly(s: seq<byte>, c: Cursor, d: Cursor, newlines: bool, entities: bool)
    requires |c.out| <= c.p <= |s| && d.p == c.p && |d.out| == |c.out|
    ensures Run(s, c, newlines, entities) == RunMeant(s, d, newlines, entities)
      <==> c.out == d.out && Clean(s, c, newlines, entities)
    decreases |s| - c.p
  {
    if c.p < |s| {
      if CutOff(s, c.p, entities) {
        CutOffLost(s, c, newlines, entities);
        CutOffLost(s, d, newlines, entities);
      } else {
        var x, y := Next(s, c, newlines, entities), Meant(s, d, newlines, entities);
        if Stray(s, c.p, entities) {
          StrayMove(s, c, newlines, entities);
          assert x.out == y.out <==> c.out == d.out && s[|c.out|] == AMP;
        } else {
          SameMove(s, c, d, newlines, entities);
          SplitEqual(x.out, y.out, |c.out|);
        }
        MeantExactly(s, x, y, newlines, entities);
      }
    }
  }

  function UnescapedMeant(s: seq<byte>, newlines: bool := true, entities: bool := true): seq<byte>
  {
    RunMeant(s, Cursor(0, []), newlines, entities)
  }

  /** The code does what is meant exactly on clean texts. */
  lemma UnescapedAsMeant(s: seq<byte>, newlines: bool, entities: bool)
    ensures Unescaped(s, newlines, entities) == UnescapedMeant(s, newlines, entities)
      <==> Clean(s, Cursor(0, []), newlines, entities)
  {
    MeantExactly(s, Cursor(0, []), Cursor(0, []), newlines, entities);
  }

  /** Something at p that is written shorter than it is read: a pair of line ends, a reference or an entity. */
  predicate Shortens(s: seq<byte>, p: nat, newlines: bool, entities: bool)
    requires p < |s|
  {
    || (newlines && s[p] == CR && ByteAt(s, p + 1, LF))
    || (newlines && s[p] == LF && ByteAt(s, p + 1, CR))
    || (entities && s[p] == AMP && !Stray(s, p, entities))
  }

  /** A test on the text alone: nothing is shortened before a stray '&', and no "&#" ends it. */
  predicate Harmless(s: seq<byte>, from: nat, newlines: bool, entities: bool)
  {
    && (forall r, p :: from <= r < p < |s| && Stray(s, p, entities) ==> !Shortens(s, r, newlines, entities))
    && forall p :: from <= p < |s| ==> !CutOff(s, p, entities)
  }

  lemma LevelMove(s: seq<byte>, c: Cursor, newlines: bool, entities: bool)
    requires |c.out| <= c.p < |s| && !Shortens(s, c.p, newlines, entities)
    ensures var x := Next(s, c, newlines, entities); x.p == c.p + 1 && |x.out| == |c.out| + 1
  {
  }

  /** Nothing is left for a later stray '&' to be disturbed by. */
  predicate NoStray(s: seq<byte>, from: nat, entities: bool)
  {
    forall p :: from <= p < |s| ==> !Stray(s, p, entities)
  }

  lemma {:induction false} HarmlessIsClean(s: seq<byte>, c: Cursor, newlines: bool, entities: bool)
    requires |c.out| <= c.p <= |s| && Harmless(s, c.p, newlines, entities)
    requires |c.out| == c.p || NoStray(s, c.p, entities)
    ensures Clean(s, c, newlines, entities)
    decreases |s| - c.p
  {
    if c.p < |s| {
      var x := Next(s, c, newlines, entities);
      if !Shortens(s, c.p, newlines, entities) {
        LevelMove(s, c, newlines, entities);
      }
      HarmlessIsClean(s, x, newlines, entities);
    }
  }

  lemma StraysKept(s: seq<byte>, newlines: bool, entities: bool)
    requires Harmless(s, 0, newlines, entities)
    ensures Unescaped(s, newlines, entities) == UnescapedMeant(s, newlines, entities)
  {
    HarmlessIsClean(s, Cursor(0, []), newlines, entities);
    UnescapedAsMeant(s, newlines, entities);
  }

  // "a&lt;&b"
  const AFTER_ENTITY: seq<byte> := [97, 38, 108, 116, 59, 38, 98]

  lemma EntityThenStray(s: seq<byte>)
    requires s == AFTER_ENTITY
    ensures FindEntity(s, 1, 0) == 3 && FindEntity(s, 5, 0) == NUM_ENTITIES
  {
    assert s[2..4] == Pattern(3) && s[2..5][2] != Pattern(1)[2];
  }

  lemma EndOfStale(s: seq<byte>, c: Cursor)
    requires s == AFTER_ENTITY && c == Cursor(5, [97, 60])
    ensures Stray(s, 5, true) && Next(s, c, true, true) == Cursor(6, [97, 60, 108])
    ensures Run(s, c, true, true) == [97, 60, 108, 98] && RunMeant(s, c, true, true) == [97, 60, 38, 98]
  {
    EntityThenStray(s);
    var x, y := Cursor(6, [97, 60, 108]), Cursor(6, [97, 60, 38]);
    assert Next(s, c, true, true) == x && Meant(s, c, true, true) == y;
    assert Next(s, x, true, true) == Cursor(7, [97, 60, 108, 98]);
    assert Meant(s, y, true, true) == Cursor(7, [97, 60, 38, 98]);
  }

  /** After "&lt;" is shortened, the stray '&' turns into the 'l' left over from it. */
  lemma StaleByte(s: seq<byte>)
    requires s == AFTER_ENTITY
    ensures Stray(s, 5, true) && Next(s, Cursor(5, [97, 60]), true, true) == Cursor(6, [97, 60, 108])
    ensures Unescaped(s) == [97, 60, 108, 98] && UnescapedMeant(s) == [97, 60, 38, 98]
  {
    EntityThenStray(s);
    var start, a, b := Cursor(0, []), Cursor(1, [97]), Cursor(5, [97, 60]);
    assert Next(s, start, true, true) == a && Meant(s, start, true, true) == a;
    assert Next(s, a, true, true) == b && Meant(s, a, true, true) == b;
    EndOfStale(s, b);
  }

  // ----- GetStr in place -----

  /** The buffer mid-way: the output, then the untouched rest of the text, its NUL and what follows. */
  predicate Halfway(cells: seq<byte>, text: seq<byte>, out: seq<byte>)
  {
    |out| <= |cells| == |text| && cells[..|out|] == out && cells[|out|..] == text[|out|..]
  }

  lemma HalfwayPut(cells: seq<byte>, text: seq<byte>, out: seq<byte>, more: seq<byte>)
    requires Halfway(cells, text, out) && |out| + |more| <= |cells|
    ensures Halfway(Splice(cells, |out|, more), text, out + more)
  {
    var next := Splice(cells, |out|, more);
    assert next[|out| + |more|..] == cells[|out|..][|more|..];
    assert text[|out|..][|more|..] == text[|out| + |more|..];
  }

  /** Skipping a byte with the write pointer leaves the text's own byte there. */
  lemma HalfwaySkip(cells: seq<byte>, text: seq<byte>, out: seq<byte>)
    requires Halfway(cells, text, out) && |out| < |cells|
    ensures Halfway(cells, text, out + [text[|out|]])
  {
    assert cells[|out|] == cells[|out|..][0] == text[|out|..][0];
    HalfwayPut(cells, text, out, [text[|out|]]);
    assert Splice(cells, |out|, [text[|out|]]) == cells;
  }

  method Put(buf: array<byte>, q: nat, more: seq<byte>)
    requires q + |more| <= buf.Length
    modifies buf
    ensures buf[..] == Splice(old(buf[..]), q, more)
  {
    var i := 0;
    while i < |more|
      invariant i <= |more|
      invariant buf[..] == Splice(old(buf[..]), q, more[..i])
    {
      buf[q + i] := more[i];
      i := i + 1;
    }
    assert more[..i] == more;
  }

  /** The buffer still holds the text from p on, and its NUL. */
  predicate Holds(buf: array<byte>, s: seq<byte>, p: nat)
    reads buf
  {
    |s| < buf.Length && buf[|s|] == 0 && forall j :: p <= j < |s| ==> buf[j] == s[j]
  }

  predicate NoNul(s: seq<byte>)
  {
    forall i :: 0 <= i < |s| ==> s[i] != 0
  }

  /** strchr; the position of the NUL when the byte does not occur */
  method StrChr(buf: array<byte>, ghost s: seq<byte>, i: nat, ch: byte) returns (k: nat)
    requires i <= |s| && Holds(buf, s, i) && NoNul(s) && ch != 0
    ensures k == Find(s, i, ch)
  {
    k := i;
    while buf[k] != 0 && buf[k] != ch
      invariant i <= k <= |s| && Find(s, k, ch) == Find(s, i, ch)
      decreases |s| - k
    {
      k := k + 1;
    }
  }

  /** The digits are read backwards to the mark, with a 32-bit multiplier. */
  method SumDigits(buf: array<byte>, ghost s: seq<byte>, ghost mark: nat, semicolon: nat, ch: byte, base: nat)
    returns (ok: bool, ucs: nat)
    requires mark < semicolon < |s| && Holds(buf, s, mark) && s[mark] == ch
    requires forall j :: mark < j < semicolon ==> s[j] != ch
    ensures ok == AllDigits(s, mark + 1, semicolon, base)
    ensures ok ==> ucs == RefValue(s, mark + 1, semicolon, base, 1)
  {
    var mult: nat, q := 1, semicolon - 1;
    ucs := 0;
    while buf[q] != ch
      invariant mark <= q < semicolon && AllDigits(s, q + 1, semicolon, base)
      invariant RefValue(s, mark + 1, semicolon, base, 1) == ucs + RefValue(s, mark + 1, q + 1, base, mult)
      decreases q
    {
      var digit := Digit(buf[q]);
      if digit >= base { return false, ucs; }
      ucs, mult := ucs + Scaled(mult, digit), Scaled(mult, base);
      q := q - 1;
    }
    ok := true;
  }

  method ReadReference(buf: array<byte>, ghost s: seq<byte>, i: nat, semicolon: nat, ch: byte, base: nat)
    returns (r: Reference)
    requires i < semicolon < |s| && Holds(buf, s, i) && s[i] == ch
    ensures r == RefFrom(s, FindLast(s, i, semicolon, ch), semicolon, base)
  {
    var ok, ucs := SumDigits(buf, s, FindLast(s, i, semicolon, ch), semicolon, ch, base);
    if !ok { return NoReference; }
    var utf8 := ConvertUtf32ToUtf8(ucs);
    r := Reference(semicolon + 1, utf8);
  }

  method GetCharacterRef(buf: array<byte>, ghost s: seq<byte>, p: nat) returns (r: Reference)
    requires Holds(buf, s, p) && NoNul(s) && p + 1 < |s| && s[p + 1] == HASH
    ensures r == GetReference(s, p)
  {
    if buf[p + 2] == 0 { return Reference(p + 1, []); }
    if buf[p + 2] == SMALL_X {
      if buf[p + 3] == 0 { return NoReference; }
      var semicolon := StrChr(buf, s, p + 3, SEMICOLON);
      if buf[semicolon] == 0 { return NoReference; }
      r := ReadReference(buf, s, p + 2, semicolon, SMALL_X, 16);
    } else {
      var semicolon := StrChr(buf, s, p + 2, SEMICOLON);
      if buf[semicolon] == 0 { return NoReference; }
      r := ReadReference(buf, s, p + 1, semicolon, HASH, 10);
    }
  }

  /** strncmp and the semicolon test */
  method MatchesEntity(buf: array<byte>, ghost s: seq<byte>, p: nat, k: nat) returns (m: bool)
    requires Holds(buf, s, p) && NoNul(s) && p < |s| && k < NUM_ENTITIES
    ensures m == EntityAt(s, p, k)
  {
    var pattern := Pattern(k);
    var i := 0;
    while i < |pattern| && buf[p + 1 + i] == pattern[i]
      invariant i <= |pattern| && p + 1 + i <= |s| && s[p + 1..p + 1 + i] == pattern[..i]
    {
      assert pattern[i] != 0;
      assert s[p + 1..p + 2 + i] == s[p + 1..p + 1 + i] + [s[p + 1 + i]];
      i := i + 1;
    }
    m := i == |pattern| && buf[p + 1 + i] == SEMICOLON;
    assert i < |pattern| && p + 1 + |pattern| <= |s| ==> s[p + 1..p + 1 + |pattern|][i] != pattern[i];
  }

  method LookUp(buf: array<byte>, ghost s: seq<byte>, p: nat) returns (k: nat)
    requires Holds(buf, s, p) && NoNul(s) && p < |s|
    ensures k == FindEntity(s, p, 0)
  {
    k := 0;
    while k < NUM_ENTITIES
      invariant k <= NUM_ENTITIES && FindEntity(s, p, k) == FindEntity(s, p, 0)
    {
      var m := MatchesEntity(buf, s, p, k);
      if m { return; }
      k := k + 1;
    }
  }

  /** The text, its NUL and whatever follows in the buffer. */
  predicate IsText(text: seq<byte>, s: seq<byte>)
  {
    |s| < |text| && text[..|s|] == s && text[|s|] == 0 && NoNul(s)
  }

  lemma HalfwayHolds(buf: array<byte>, text: seq<byte>, s: seq<byte>, out: seq<byte>, p: nat)
    requires IsText(text, s) && Halfway(buf[..], text, out) && |out| <= p <= |s|
    ensures Holds(buf, s, p)
  {
    forall j | |out| <= j <= |s| ensures buf[j] == text[j] {
      assert buf[..][|out|..][j - |out|] == text[|out|..][j - |out|];
    }
    assert forall j :: 0 <= j < |s| ==> text[..|s|][j] == text[j];
  }

  method Write(buf: array<byte>, q: nat, more: seq<byte>, ghost text: seq<byte>, ghost out: seq<byte>)
    requires q == |out| && q + |more| <= buf.Length && Halfway(buf[..], text, out)
    modifies buf
    ensures Halfway(buf[..], text, out + more)
  {
    HalfwayPut(buf[..], text, out, more);
    Put(buf, q, more);
  }

  /** A round of the loop for an '&'. */
  method Entity(buf: array<byte>, p: nat, ghost text: seq<byte>, ghost s: seq<byte>, ghost out: seq<byte>, q: nat)
    returns (p': nat, q': nat)
    requires IsText(text, s) && Halfway(buf[..], text, out) && q == |out| <= p < |s| && s[p] == AMP
    modifies buf
    ensures var c := Next(s, Cursor(p, out), false, true);
            p' == c.p && q' == |c.out| && Halfway(buf[..], text, c.out)
  {
    HalfwayHolds(buf, text, s, out, p);
    if buf[p + 1] == HASH {
      var r := GetCharacterRef(buf, s, p);
      if r.NoReference? {
        Write(buf, q, [AMP], text, out);
        p', q' := p + 1, q + 1;
      } else {
        Write(buf, q, r.utf8, text, out);
        p', q' := r.next, q + |r.utf8|;
      }
    } else {
      var k := LookUp(buf, s, p);
      if k < NUM_ENTITIES {
        Write(buf, q, [Value(k)], text, out);
        p', q' := p + |Pattern(k)| + 2, q + 1;
      } else {
        HalfwaySkip(buf[..], text, out);
        assert text[..|s|][|out|] == s[|out|];
        p', q' := p + 1, q + 1;
      }
    }
  }

  /** A round of the loop for a line end. */
  method LineEnd(buf: array<byte>, p: nat, ghost text: seq<byte>, ghost s: seq<byte>, ghost out: seq<byte>, q: nat)
    returns (p': nat, q': nat)
    requires IsText(text, s) && Halfway(buf[..], text, out) && q == |out| <= p < |s| && (s[p] == CR || s[p] == LF)
    modifies buf
    ensures var c := Next(s, Cursor(p, out), true, false);
            p' == c.p && q' == |c.out| && Halfway(buf[..], text, c.out)
  {
    HalfwayHolds(buf, text, s, out, p);
    var other := if buf[p] == CR then LF else CR;
    p' := if buf[p + 1] == other then p + 2 else p + 1;
    Write(buf, q, [LF], text, out);
    q' := q + 1;
  }

  method Round(buf: array<byte>, p: nat, newlines: bool, entities: bool,
               ghost text: seq<byte>, ghost s: seq<byte>, ghost out: seq<byte>, q: nat)
    returns (p': nat, q': nat)
    requires IsText(text, s) && Halfway(buf[..], text, out) && q == |out| <= p < |s|
    modifies buf
    ensures var c := Next(s, Cursor(p, out), newlines, entities);
            p' == c.p && q' == |c.out| && Halfway(buf[..], text, c.out)
  {
    HalfwayHolds(buf, text, s, out, p);
    if newlines && (buf[p] == CR || buf[p] == LF) {
      p', q' := LineEnd(buf, p, text, s, out, q);
    } else if entities && buf[p] == AMP {
      p', q' := Entity(buf, p, text, s, out, q);
    } else {
      Write(buf, q, [buf[p]], text, out);
      p', q' := p + 1, q + 1;
    }
  }

  lemma WholeBuffer(cells: seq<byte>, text: seq<byte>, out: seq<byte>)
    requires Halfway(cells, text, out)
    ensures cells == Splice(text, 0, out)
  {
    assert cells == cells[..|out|] + cells[|out|..];
  }

  /** Reading a text from its buffer: the result ends in a NUL, and nothing else of the buffer changes. */
  method GetStr(buf: array<byte>, end: nat, newlines: bool, entities: bool)
    requires end < buf.Length && NoNul(buf[..end])
    modifies buf
    ensures var s := old(buf[..end]);
            var out := Unescaped(s, newlines, entities);
            buf[..] == Splice(old(buf[..])[end := 0], 0, out + [0])
  {
    ghost var s := buf[..end];
    buf[end] := 0;
    ghost var text, c := buf[..], Cursor(0, []);
    assert text[..end] == s;
    var p, q := 0, 0;
    while p < end
      invariant p == c.p && q == |c.out| <= p <= |s| == end && IsText(text, s) && Halfway(buf[..], text, c.out)
      invariant Run(s, c, newlines, entities) == Unescaped(s, newlines, entities)
      decreases end - p
    {
      ghost var next := Next(s, c, newlines, entities);
      p, q := Round(buf, p, newlines, entities, text, s, c.out, q);
      c := next;
    }
    Write(buf, q, [0], text, c.out);
    WholeBuffer(buf[..], text, c.out + [0]);
  }

  // ----- escaping -----

  /** The entity of a byte; restricted text keeps its quotes. */
  function EntityOf(b: byte, restricted: bool): (k: nat)
    ensures k <= NUM_ENTITIES && (k < NUM_ENTITIES ==> Value(k) == b)
    ensures b == AMP ==> k < NUM_ENTITIES
  {
    if b == 38 then 1 else if b == 60 then 3 else if b == 62 then 4
    else if b == 34 && !restricted then 0
    else if b == 39 && !restricted then 2
    else NUM_ENTITIES
  }

  function EscapedByte(b: byte, restricted: bool): (s: seq<byte>)
    ensures s != []
  {
    var k := EntityOf(b, restricted);
    if k < NUM_ENTITIES then [AMP] + Pattern(k) + [SEMICOLON] else [b]
  }

  function Escaped(s: seq<byte>, restricted: bool): seq<byte>
  {
    if s == [] then [] else EscapedByte(s[0], restricted) + Escaped(s[1..], restricted)
  }

  /** Line ends as the reader sees them: CR LF, LF CR and CR all become LF. */
  function Normalized(s: seq<byte>): seq<byte>
  {
    if s == [] then []
    else if s[0] == CR then [LF] + Normalized(if ByteAt(s, 1, LF) then s[2..] else s[1..])
    else if s[0] == LF then [LF] + Normalized(if ByteAt(s, 1, CR) then s[2..] else s[1..])
    else [s[0]] + Normalized(s[1..])
  }

  /** The bytes with a meaning in markup: '&', '<' and '>', and the quotes where they can end an attribute. */
  predicate Markup(b: byte, restricted: bool)
  {
    b == 38 || b == 60 || b == 62 || (!restricted && (b == 34 || b == 39))
  }

  lemma EscapedByteIs(b: byte, restricted: bool)
    ensures Markup(b, restricted) <==> EscapedByte(b, restricted) != [b]
    ensures Markup(b, restricted) ==> EscapedByte(b, restricted)[0] == 38
    ensures forall i :: 0 < i < |EscapedByte(b, restricted)| ==> !Markup(EscapedByte(b, restricted)[i], restricted)
  {
  }

  /** No markup is left in printed text but the '&' of its entities, and text without markup is printed as it is. */
  lemma {:induction false} NoMarkupLeft(s: seq<byte>, restricted: bool)
    ensures forall i :: 0 <= i < |Escaped(s, restricted)| ==>
              Escaped(s, restricted)[i] == 38 || !Markup(Escaped(s, restricted)[i], restricted)
    ensures (forall i :: 0 <= i < |s| ==> !Markup(s[i], restricted)) <==> Escaped(s, restricted) == s
    ensures |Escaped(s, restricted)| >= |s|
  {
    if s != [] {
      var head, tail := EscapedByte(s[0], restricted), Escaped(s[1..], restricted);
      EscapedByteIs(s[0], restricted);
      NoMarkupLeft(s[1..], restricted);
      if head == [s[0]] {
        assert (head + tail)[1..] == tail;
        assert s == [s[0]] + s[1..];
      }
    }
  }

  lemma Assoc(x: seq<byte>, y: seq<byte>, z: seq<byte>)
    ensures x + (y + z) == x + y + z
  {
  }

  lemma EscapedOne(b: byte, restricted: bool)
    ensures Escaped([b], restricted) == EscapedByte(b, restricted)
  {
    assert [b][1..] == [];
  }

  lemma EscapedHead(s: seq<byte>, t: seq<byte>, restricted: bool)
    requires s != [] && s[1..] == t
    ensures Escaped(s, restricted) == EscapedByte(s[0], restricted) + Escaped(t, restricted)
  {
  }

  lemma {:induction false} EscapedSnoc(s: seq<byte>, b: byte, restricted: bool)
    ensures Escaped(s + [b], restricted) == Escaped(s, restricted) + EscapedByte(b, restricted)
  {
    if s == [] {
      EscapedOne(b, restricted);
      assert s + [b] == [b];
    } else {
      EscapedSnoc(s[1..], b, restricted);
      EscapedHead(s + [b], s[1..] + [b], restricted);
      Assoc(EscapedByte(s[0], restricted), Escaped(s[1..], restricted), EscapedByte(b, restricted));
    }
  }

  lemma EscapedPrefix(s: seq<byte>, q: nat, restricted: bool)
    requires q < |s|
    ensures Escaped(s[..q + 1], restricted) == Escaped(s[..q], restricted) + EscapedByte(s[q], restricted)
  {
    EscapedSnoc(s[..q], s[q], restricted);
    assert s[..q + 1] == s[..q] + [s[q]];
  }

  /** What is printed and the pending run s[p..q]. */
  predicate Printing(s: seq<byte>, restricted: bool, out: seq<byte>, p: nat, q: nat)
    requires p <= q <= |s|
  {
    Escaped(s[..q], restricted) == out + s[p..q]
  }

  lemma PrintingEntity(s: seq<byte>, restricted: bool, out: seq<byte>, p: nat, q: nat)
    requires p <= q < |s| && Printing(s, restricted, out, p, q)
    ensures Printing(s, restricted, out + s[p..q] + EscapedByte(s[q], restricted), q + 1, q + 1)
  {
    EscapedPrefix(s, q, restricted);
  }

  lemma PendingGrows(s: seq<byte>, out: seq<byte>, p: nat, q: nat)
    requires p <= q < |s|
    ensures out + s[p..q + 1] == out + s[p..q] + [s[q]]
  {
    Assoc(out, s[p..q], [s[q]]);
    assert s[p..q + 1] == s[p..q] + [s[q]];
  }

  lemma PrintingStart(s: seq<byte>, restricted: bool)
    ensures Printing(s, restricted, [], 0, 0)
  {
    assert s[..0] == [];
  }

  lemma PrintingPlain(s: seq<byte>, restricted: bool, out: seq<byte>, p: nat, q: nat)
    requires p <= q < |s| && Printing(s, restricted, out, p, q) && EntityOf(s[q], restricted) == NUM_ENTITIES
    ensures Printing(s, restricted, out, p, q + 1)
  {
    EscapedPrefix(s, q, restricted);
    PendingGrows(s, out, p, q);
  }

  /** The whole text is printed by flushing the pending run. */
  lemma PrintingEnd(s: seq<byte>, restricted: bool, out: seq<byte>, p: nat)
    requires p <= |s| && Printing(s, restricted, out, p, |s|)
    ensures Escaped(s, restricted) == out + s[p..]
  {
    assert s[..|s|] == s && s[p..|s|] == s[p..];
  }

  /** The byte at q joins the pending run, or is printed as its entity behind it. */
  method PrintByte(s: seq<byte>, restricted: bool, out: seq<byte>, p: nat, q: nat) returns (out': seq<byte>, p': nat)
    requires p <= q < |s| && Printing(s, restricted, out, p, q)
    ensures p' <= q + 1 && Printing(s, restricted, out', p', q + 1)
  {
    if EntityOf(s[q], restricted) < NUM_ENTITIES {
      PrintingEntity(s, restricted, out, p, q);
      out', p' := out + s[p..q] + EscapedByte(s[q], restricted), q + 1;
    } else {
      PrintingPlain(s, restricted, out, p, q);
      out', p' := out, p;
    }
  }

  /** Runs of plain bytes are flushed before each entity and at the end. */
  method PrintString(s: seq<byte>, restricted: bool) returns (out: seq<byte>)
    ensures out == Escaped(s, restricted)
  {
    out := [];
    var p: nat, q: nat := 0, 0;
    PrintingStart(s, restricted);
    while q < |s|
      invariant p <= q <= |s| && Printing(s, restricted, out, p, q)
    {
      out, p := PrintByte(s, restricted, out, p, q);
      q := q + 1;
    }
    PrintingEnd(s, restricted, out, p);
    if p < q {
      out := out + s[p..];
    }
  }

  // ----- reading what was printed -----

  lemma NoSemicolonInside(s: seq<byte>, p: nat, k: nat)
    requires k < NUM_ENTITIES && EntityAt(s, p, k)
    ensures forall i :: p + 1 <= i < p + 1 + |Pattern(k)| ==> s[i] != SEMICOLON
  {
    var n := |Pattern(k)|;
    forall i | p + 1 <= i < p + 1 + n ensures s[i] != SEMICOLON {
      assert s[p + 1..p + 1 + n][i - p - 1] == s[i];
    }
  }

  lemma OneEntity(s: seq<byte>, p: nat, j: nat, k: nat)
    requires j < NUM_ENTITIES && k < NUM_ENTITIES && EntityAt(s, p, j) && EntityAt(s, p, k)
    ensures j == k
  {
    NoSemicolonInside(s, p, j);
    NoSemicolonInside(s, p, k);
    assert |Pattern(j)| == |Pattern(k)|;
  }

  lemma EntityFound(s: seq<byte>, p: nat, k: nat)
    requires k < NUM_ENTITIES && EntityAt(s, p, k)
    ensures FindEntity(s, p, 0) == k
  {
    var r := FindEntity(s, p, 0);
    OneEntity(s, p, r, k);
  }

  lemma PrintedEntity(e: seq<byte>, p: nat, k: nat, more: seq<byte>)
    requires p <= |e| && k < NUM_ENTITIES && e[p..] == [AMP] + Pattern(k) + [SEMICOLON] + more
    ensures EntityAt(e, p, k) && e[p] == AMP && !ByteAt(e, p + 1, HASH) && e[p + |Pattern(k)| + 2..] == more
  {
    var n := |Pattern(k)|;
    var rest := e[p..];
    assert rest[0] == e[p] && rest[1] == e[p + 1] && rest[n + 1] == e[p + n + 1];
    assert rest[1..1 + n] == Pattern(k) && rest[1..1 + n] == e[p + 1..p + 1 + n];
    assert rest[n + 2..] == more && rest[n + 2..] == e[p + n + 2..];
  }

  /** A line end stays the first byte when the text after it is escaped, and nothing else becomes one. */
  lemma LineEndKept(t: seq<byte>, b: byte, restricted: bool)
    requires b == LF || b == CR
    ensures ByteAt(Escaped(t, restricted), 0, b) <==> ByteAt(t, 0, b)
    ensures ByteAt(t, 0, b) ==> Escaped(t, restricted)[1..] == Escaped(t[1..], restricted)
  {
    if t != [] && t[0] == b {
      assert EscapedByte(b, restricted) == [b];
    }
  }

  /** A byte that is printed as itself. */
  lemma PrintedByte(e: seq<byte>, p: nat, b: byte, more: seq<byte>)
    requires p <= |e| && e[p..] == [b] + more
    ensures p < |e| && e[p] == b && e[p + 1..] == more
    ensures forall x: byte :: ByteAt(e, p + 1, x) <==> ByteAt(more, 0, x)
  {
    assert e[p..][1..] == e[p + 1..];
  }

  lemma EntityStep(e: seq<byte>, c: Cursor, k: nat, more: seq<byte>)
    requires |c.out| <= c.p <= |e| && k < NUM_ENTITIES && e[c.p..] == [AMP] + Pattern(k) + [SEMICOLON] + more
    ensures c.p < |e| && Next(e, c, true, true) == Cursor(c.p + |Pattern(k)| + 2, c.out + [Value(k)])
    ensures e[c.p + |Pattern(k)| + 2..] == more
  {
    PrintedEntity(e, c.p, k, more);
    EntityFound(e, c.p, k);
  }

  lemma PlainStep(e: seq<byte>, c: Cursor, b: byte, more: seq<byte>)
    requires |c.out| <= c.p <= |e| && e[c.p..] == [b] + more && b != AMP && b != CR && b != LF
    ensures c.p < |e| && Next(e, c, true, true) == Cursor(c.p + 1, c.out + [b]) && e[c.p + 1..] == more
  {
    PrintedByte(e, c.p, b, more);
  }

  /** A line end takes the opposite one after it along. */
  lemma LineStep(e: seq<byte>, c: Cursor, b: byte, t: seq<byte>, restricted: bool)
    requires |c.out| <= c.p <= |e| && (b == CR || b == LF) && e[c.p..] == [b] + Escaped(t, restricted)
    ensures var pair := ByteAt(t, 0, if b == CR then LF else CR);
            && c.p < |e| && Next(e, c, true, true) == Cursor(if pair then c.p + 2 else c.p + 1, c.out + [LF])
            && (if pair then e[c.p + 2..] == Escaped(t[1..], restricted) else e[c.p + 1..] == Escaped(t, restricted))
  {
    PrintedByte(e, c.p, b, Escaped(t, restricted));
    LineEndKept(t, if b == CR then LF else CR, restricted);
    assert c.p + 2 <= |e| ==> e[c.p + 1..][1..] == e[c.p + 2..];
  }

  lemma RunStep(e: seq<byte>, c: Cursor)
    requires |c.out| <= c.p < |e|
    ensures Run(e, c, true, true) == Run(e, Next(e, c, true, true), true, true)
  {
  }

  lemma OneMore(out: seq<byte>, b: byte, rest: seq<byte>)
    ensures out + [b] + rest == out + ([b] + rest)
  {
  }

  /** A round over a printed line end and its companion. */
  lemma PrintedLine(e: seq<byte>, c: Cursor, t: seq<byte>, restricted: bool) returns (rest: seq<byte>)
    requires |c.out| <= c.p <= |e| && t != [] && (t[0] == CR || t[0] == LF)
    requires e[c.p..] == [t[0]] + Escaped(t[1..], restricted)
    ensures c.p < |e| && |rest| < |t| && e[Next(e, c, true, true).p..] == Escaped(rest, restricted)
    ensures Next(e, c, true, true).out == c.out + [LF] && Normalized(t) == [LF] + Normalized(rest)
  {
    rest := t[1..];
    LineStep(e, c, t[0], rest, restricted);
    if ByteAt(rest, 0, if t[0] == CR then LF else CR) {
      rest := t[2..];
      assert t[1..][1..] == rest;
    }
  }

  /** A round over a printed byte. */
  lemma PrintedStep(e: seq<byte>, c: Cursor, t: seq<byte>, restricted: bool) returns (rest: seq<byte>)
    requires |c.out| <= c.p <= |e| && t != [] && e[c.p..] == Escaped(t, restricted)
    ensures c.p < |e| && |rest| < |t| && e[Next(e, c, true, true).p..] == Escaped(rest, restricted)
    ensures var b := if t[0] == CR then LF else t[0];
            Next(e, c, true, true).out == c.out + [b] && Normalized(t) == [b] + Normalized(rest)
  {
    var k := EntityOf(t[0], restricted);
    rest := t[1..];
    if k < NUM_ENTITIES {
      EntityStep(e, c, k, Escaped(rest, restricted));
    } else if t[0] == CR || t[0] == LF {
      rest := PrintedLine(e, c, t, restricted);
    } else {
      PlainStep(e, c, t[0], Escaped(rest, restricted));
    }
  }

  /** Reading on from a printed suffix gives the rest of the text with its line ends normalised. */
  lemma {:induction false} ReadsPrinted(e: seq<byte>, c: Cursor, t: seq<byte>, restricted: bool)
    requires |c.out| <= c.p <= |e| && e[c.p..] == Escaped(t, restricted)
    ensures Run(e, c, true, true) == c.out + Normalized(t)
    decreases |t|
  {
    if t != [] {
      var rest := PrintedStep(e, c, t, restricted);
      ReadsPrinted(e, Next(e, c, true, true), rest, restricted);
      RunStep(e, c);
      OneMore(c.out, if t[0] == CR then LF else t[0], Normalized(rest));
    }
  }

  lemma {:induction false} NormalizedSame(s: seq<byte>)
    ensures Normalized(s) == s <==> CR !in s
    ensures CR !in Normalized(s)
    decreases |s|
  {
    if s != [] {
      NormalizedSame(s[1..]);
      if |s| > 1 {
        NormalizedSame(s[2..]);
      }
    }
  }

  /** Escaped text reads back as the text with its line ends normalised, and as itself exactly without CR. */
  lemma EscapeRoundTrip(s: seq<byte>, restricted: bool)
    ensures Unescaped(Escaped(s, restricted)) == Normalized(s)
    ensures Unescaped(Escaped(s, restricted)) == s <==> CR !in s
  {
    var e := Escaped(s, restricted);
    assert e[0..] == e;
    ReadsPrinted(e, Cursor(0, []), s, restricted);
    NormalizedSame(s);
  }
}
