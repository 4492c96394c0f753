/** Integers in text form: what swprintf prints for a VARIANT and what wcstol and its kin read back (dn_common.c). */
module RacNumber {
  import opened Wire
  import opened Variants
  import opened RacText

  const MINUS := 45
  const PLUS := 43
  const DOT := 46
  const SPACE := 32

  // ----- digits -----

  function DigitOf(ch: nat): (d: nat)
  {
    if 48 <= ch <= 57 then ch - 48
    else if 65 <= ch <= 70 then ch - 55
    else if 97 <= ch <= 102 then ch - 87
    else 16
  }

  /** The value of digits, most significant first. */
  function Digits(s: Text, base: nat): nat
  {
    if s == [] then 0 else Digits(s[..|s| - 1], base) * base + DigitOf(s[|s| - 1])
  }

  /** How many digits s starts with. */
  function Run(s: Text, base: nat): (k: nat)
    ensures k <= |s|
    ensures forall i :: 0 <= i < k ==> DigitOf(s[i]) < base
    ensures k < |s| ==> DigitOf(s[k]) >= base
  {
    if s == [] || DigitOf(s[0]) >= base then 0 else 1 + Run(s[1..], base)
  }

  predicate IsDecimal(s: Text)
  {
    forall i :: 0 <= i < |s| ==> 48 <= s[i] <= 57
  }

  /** %u: decimal digits without leading zeros. */
  function Decimal(n: nat): (s: Text)
    ensures s != [] && IsDecimal(s)
    ensures s[0] == 48 <==> n == 0
    ensures n == 0 ==> |s| == 1
  {
    if n < 10 then [48 + n] else Decimal(n / 10) + [48 + n % 10]
  }

  lemma {:induction false} DecimalValue(n: nat)
    ensures Digits(Decimal(n), 10) == n
  {
    var s := Decimal(n);
    if n >= 10 {
      DecimalValue(n / 10);
      assert s[..|s| - 1] == Decimal(n / 10);
    } else {
      assert s[..|s| - 1] == [];
    }
  }

  /** Ends a run of digits: no decimal digit and no base prefix letter. */
  predicate Ends(rest: Text)
  {
    rest == [] || (rest[0] < 48 || (57 < rest[0] < 65))
  }

  lemma RunIs(t: Text, base: nat, m: nat)
    requires m <= |t| && forall i :: 0 <= i < m ==> DigitOf(t[i]) < base
    requires m < |t| ==> DigitOf(t[m]) >= base
    ensures Run(t, base) == m
  {
  }

  lemma RunOfDecimal(s: Text, rest: Text)
    requires IsDecimal(s) && Ends(rest)
    ensures Run(s + rest, 10) == |s| && (s + rest)[..|s|] == s && (s + rest)[|s|..] == rest
  {
    var t := s + rest;
    assert |s| < |t| ==> t[|s|] == rest[0];
    RunIs(t, 10, |s|);
  }

  // ----- strtol with base 0 -----

  datatype Number = Number(neg: bool, size: nat, rest: Text)

  predicate Blank(ch: nat)
  {
    ch == 32 || 9 <= ch <= 13
  }

  function SkipBlanks(s: Text): Text
  {
    if s == [] || !Blank(s[0]) then s else SkipBlanks(s[1..])
  }

  predicate HexPrefix(s: Text)
  {
    |s| >= 3 && s[0] == 48 && (s[1] == 120 || s[1] == 88) && DigitOf(s[2]) < 16
  }

  /** The digits after the sign, in the base their prefix selects. */
  function ReadDigits(neg: bool, s: Text): Option<Number>
  {
    var base := if HexPrefix(s) then 16 else if s != [] && s[0] == 48 then 8 else 10;
    var t := if HexPrefix(s) then s[2..] else s;
    var k := Run(t, base);
    if k == 0 then None else Some(Number(neg, Digits(t[..k], base), t[k..]))
  }

  /** An optional sign and the digits. */
  function ReadSign(s: Text): Option<Number>
  {
    if s != [] && s[0] == MINUS then ReadDigits(true, s[1..])
    else if s != [] && s[0] == PLUS then ReadDigits(false, s[1..])
    else ReadDigits(false, s)
  }

  /** Without any digit nothing is consumed and the value is 0. */
  function ReadNumber(s: Text): Number
  {
    match ReadSign(SkipBlanks(s))
    case Some(n) => n
    case None => Number(false, 0, s)
  }

  /** %d */
  function Signed(neg: bool, n: nat): Text
  {
    if neg then [MINUS] + Decimal(n) else Decimal(n)
  }

  lemma ReadDecimal(neg: bool, n: nat, rest: Text)
    requires Ends(rest)
    ensures ReadDigits(neg, Decimal(n) + rest) == Some(Number(neg, n, rest))
  {
    var d := Decimal(n);
    var s := d + rest;
    assert s[0] == d[0];
    assert !HexPrefix(s) by {
      if n == 0 && |s| > 1 {
        assert s[1] == rest[0];
      }
    }
    if n == 0 {
      assert d == [48];
      assert s[1..] == rest;
      assert Run(s, 8) == 1 by {
        assert Run(rest, 8) == 0;
      }
      assert s[..1] == [48] && s[..1][..0] == [];
      assert Digits(s[..1], 8) == 0;
    } else {
      RunOfDecimal(d, rest);
      DecimalValue(n);
    }
  }

  lemma ReadUnblanked(s: Text)
    requires s != [] && !Blank(s[0]) && ReadSign(s).Some?
    ensures ReadNumber(s) == ReadSign(s).value
  {
  }

  lemma SignFirst(d: Text, rest: Text)
    ensures var s := [MINUS] + d + rest; s[0] == MINUS && s[1..] == d + rest
  {
  }

  lemma ReadMinus(d: Text, rest: Text)
    requires ReadDigits(true, d + rest).Some?
    ensures ReadNumber([MINUS] + d + rest) == ReadDigits(true, d + rest).value
  {
    SignFirst(d, rest);
    ReadUnblanked([MINUS] + d + rest);
  }

  lemma ReadPlain(d: Text, rest: Text)
    requires d != [] && IsDecimal(d) && ReadDigits(false, d + rest).Some?
    ensures ReadNumber(d + rest) == ReadDigits(false, d + rest).value
  {
    assert (d + rest)[0] == d[0];
    ReadUnblanked(d + rest);
  }

  /** A printed number followed by anything but a digit or a letter reads back as itself. */
  lemma ReadSigned(neg: bool, n: nat, rest: Text)
    requires Ends(rest)
    ensures ReadNumber(Signed(neg, n) + rest) == Number(neg, n, rest)
  {
    ReadDecimal(neg, n, rest);
    if neg {
      ReadMinus(Decimal(n), rest);
    } else {
      ReadPlain(Decimal(n), rest);
    }
  }

  // ----- every numeral, in the base its prefix selects -----

  /** The digits as characters. */
  lemma DigitCharacters(d: nat, ch: nat)
    ensures d < 10 ==> DigitOf(48 + d) == d
    ensures 10 <= d < 16 ==> DigitOf(55 + d) == d && DigitOf(87 + d) == d
    ensures !(48 <= ch <= 57) && !(65 <= ch <= 70) && !(97 <= ch <= 102) ==> DigitOf(ch) == 16
  {
  }

  predicate AllDigits(h: Text, base: nat)
  {
    forall i :: 0 <= i < |h| ==> DigitOf(h[i]) < base
  }

  /** A digit as a character, those from ten on as letters from the given one. */
  function Character(d: nat, letter: nat): nat
  {
    if d < 10 then 48 + d else letter + (d - 10)
  }

  /** n written in a base up to 16. */
  function Written(n: nat, base: nat, letter: nat): (s: Text)
    requires 2 <= base <= 16
    ensures s != []
  {
    if n < base then [Character(n, letter)] else Written(n / base, base, letter) + [Character(n % base, letter)]
  }

  lemma DigitsSnoc(t: Text, ch: nat, base: nat)
    ensures Digits(t + [ch], base) == Digits(t, base) * base + DigitOf(ch)
    ensures AllDigits(t, base) && DigitOf(ch) < base ==> AllDigits(t + [ch], base)
    ensures t != [] ==> (t + [ch])[0] == t[0]
  {
    assert (t + [ch])[..|t|] == t;
  }

  lemma Divided(n: nat, base: nat)
    requires 2 <= base <= n
    ensures n / base * base + n % base == n && 0 < n / base < n && n % base < base
  {
  }

  /** s stands for n in the base, without a leading zero. */
  predicate Denotes(s: Text, n: nat, base: nat)
  {
    s != [] && Digits(s, base) == n && AllDigits(s, base) && (s[0] == 48 <==> n == 0)
  }

  lemma CharacterDigit(d: nat, letter: nat)
    requires d < 16 && (letter == 65 || letter == 97)
    ensures DigitOf(Character(d, letter)) == d
  {
  }

  lemma DenotesNext(t: Text, q: nat, ch: nat, base: nat, n: nat)
    requires Denotes(t, q, base) && 0 < q && DigitOf(ch) < base && n == q * base + DigitOf(ch) && 0 < n
    ensures Denotes(t + [ch], n, base)
  {
    DigitsSnoc(t, ch, base);
  }

  lemma DenotesDigit(d: nat, base: nat, letter: nat)
    requires d < base <= 16 && (letter == 65 || letter == 97)
    ensures Denotes([Character(d, letter)], d, base)
  {
    CharacterDigit(d, letter);
    DigitsSnoc([], Character(d, letter), base);
    assert [] + [Character(d, letter)] == [Character(d, letter)];
  }

  /** A number written in a base has that number as its digits' value, in small letters or capitals. */
  lemma {:induction false} WrittenValue(n: nat, base: nat, letter: nat)
    requires 2 <= base <= 16 && (letter == 65 || letter == 97)
    ensures Denotes(Written(n, base, letter), n, base)
  {
    if n < base {
      DenotesDigit(n, base, letter);
    } else {
      var q, d := n / base, n % base;
      Divided(n, base);
      WrittenValue(q, base, letter);
      CharacterDigit(d, letter);
      DenotesNext(Written(q, base, letter), q, Character(d, letter), base, n);
    }
  }

  /** rest ends a run of digits. */
  predicate Stops(rest: Text, base: nat)
  {
    rest == [] || DigitOf(rest[0]) >= base
  }

  predicate Blanks(b: Text)
  {
    forall i :: 0 <= i < |b| ==> b[i] in {9, 10, 11, 12, 13, 32}
  }

  /** Behind a single 0: the letter x and a hexadecimal digit. */
  predicate HexFollows(rest: Text)
  {
    |rest| >= 2 && (rest[0] == 120 || rest[0] == 88) && DigitOf(rest[1]) < 16
  }

  /** None, '+' or '-'. */
  predicate IsSign(sign: Text)
  {
    sign == [] || sign == [43] || sign == [45]
  }

  /** 0x or 0X before hexadecimal digits, 0 before octal ones, nothing before decimal ones. */
  predicate Numeral(prefix: Text, h: Text, base: nat, rest: Text)
  {
    && AllDigits(h, base) && Stops(rest, base)
    && if base == 16 then (prefix == [48, 120] || prefix == [48, 88]) && h != []
       else if base == 8 then prefix == [48] && (h == [] ==> !HexFollows(rest))
       else base == 10 && prefix == [] && h != [] && h[0] != 48
  }

  lemma RunOf(h: Text, rest: Text, base: nat)
    requires AllDigits(h, base) && Stops(rest, base)
    ensures var t := h + rest; Run(t, base) == |h| && t[..|h|] == h && t[|h|..] == rest
  {
    var t := h + rest;
    assert |h| < |t| ==> t[|h|] == rest[0];
    RunIs(t, base, |h|);
  }

  lemma {:induction false} LeadingZero(h: Text, base: nat)
    ensures Digits([48] + h, base) == Digits(h, base)
  {
    var s := [48] + h;
    if h == [] {
      assert s[..0] == [];
    } else {
      LeadingZero(h[..|h| - 1], base);
      assert s[..|s| - 1] == [48] + h[..|h| - 1];
    }
  }

  lemma ReadHexadecimal(neg: bool, x: nat, h: Text, rest: Text)
    requires Numeral([48, x], h, 16, rest)
    ensures ReadDigits(neg, [48, x] + (h + rest)) == Some(Number(neg, Digits(h, 16), rest))
  {
    var s := [48, x] + (h + rest);
    assert s[2] == h[0] && s[2..] == h + rest;
    RunOf(h, rest, 16);
  }

  lemma ReadOctal(neg: bool, h: Text, rest: Text)
    requires Numeral([48], h, 8, rest)
    ensures ReadDigits(neg, [48] + (h + rest)) == Some(Number(neg, Digits(h, 8), rest))
  {
    var s := [48] + h + rest;
    assert s == [48] + (h + rest);
    assert !HexPrefix(s) by {
      if h == [] {
        assert s == [48] + rest;
      } else {
        assert s[1] == h[0];
      }
    }
    RunOf([48] + h, rest, 8);
    LeadingZero(h, 8);
  }

  lemma ReadNumeral(neg: bool, prefix: Text, h: Text, base: nat, rest: Text)
    requires Numeral(prefix, h, base, rest)
    ensures ReadDigits(neg, prefix + (h + rest)) == Some(Number(neg, Digits(h, base), rest))
  {
    if base == 16 {
      ReadHexadecimal(neg, prefix[1], h, rest);
    } else if base == 8 {
      ReadOctal(neg, h, rest);
    } else {
      assert prefix + (h + rest) == h + rest;
      RunOf(h, rest, 10);
    }
  }

  lemma DecimalFirst(t: Text)
    requires t != [] && DigitOf(t[0]) < 10
    ensures ReadSign(t) == ReadDigits(false, t) && t[0] !in {9, 10, 11, 12, 13, 32}
  {
    assert 48 <= t[0] <= 57;
  }

  lemma SignRead(sign: Text, t: Text)
    requires IsSign(sign) && t != [] && DigitOf(t[0]) < 10
    ensures ReadSign(sign + t) == ReadDigits(sign == [45], t)
    ensures (sign + t)[0] !in {9, 10, 11, 12, 13, 32}
  {
    if sign == [] {
      assert sign + t == t;
      DecimalFirst(t);
    } else {
      assert (sign + t)[1..] == t && (sign + t)[0] == sign[0];
    }
  }

  lemma {:induction false} BlanksSkipped(b: Text, t: Text)
    requires Blanks(b) && (t == [] || t[0] !in {9, 10, 11, 12, 13, 32})
    ensures SkipBlanks(b + t) == t
  {
    if b == [] {
      assert b + t == t;
    } else {
      BlanksSkipped(b[1..], t);
      assert (b + t)[1..] == b[1..] + t;
    }
  }

  /** Blanks, a sign and a numeral in any of the three bases give its value and leave the rest. */
  lemma NumberRead(b: Text, sign: Text, prefix: Text, h: Text, base: nat, rest: Text)
    requires Blanks(b) && IsSign(sign) && Numeral(prefix, h, base, rest)
    ensures ReadNumber(b + (sign + (prefix + (h + rest)))) == Number(sign == [45], Digits(h, base), rest)
  {
    var t := prefix + (h + rest);
    assert t[0] == if base == 10 then h[0] else 48;
    ReadNumeral(sign == [45], prefix, h, base, rest);
    SignRead(sign, t);
    BlanksSkipped(b, sign + t);
  }

  /** A number in hexadecimal, octal or decimal, with either sign, is read back. */
  lemma WrittenRead(n: nat, base: nat, letter: nat, x: nat, sign: Text, rest: Text)
    requires base in {8, 10, 16} && (letter == 65 || letter == 97) && (x == 88 || x == 120)
    requires IsSign(sign) && Stops(rest, base) && (base == 10 ==> n > 0)
    ensures var prefix := if base == 16 then [48, x] else if base == 8 then [48] else [];
            ReadNumber(sign + (prefix + (Written(n, base, letter) + rest))) == Number(sign == [45], n, rest)
  {
    var prefix := if base == 16 then [48, x] else if base == 8 then [48] else [];
    var t := sign + (prefix + (Written(n, base, letter) + rest));
    WrittenValue(n, base, letter);
    NumberRead([], sign, prefix, Written(n, base, letter), base, rest);
    assert [] + t == t;
  }

  /** Without a digit behind blanks and sign the value is 0 and nothing is consumed. */
  lemma NothingRead(b: Text, sign: Text, t: Text)
    requires Blanks(b) && IsSign(sign) && Stops(t, 10)
    requires sign == [] ==> t == [] || t[0] !in {9, 10, 11, 12, 13, 32, 43, 45}
    ensures ReadNumber(b + (sign + t)) == Number(false, 0, b + (sign + t))
  {
    var s := sign + t;
    if sign == [] {
      assert s == t;
    } else {
      assert s[0] == sign[0] && s[1..] == t;
    }
    BlanksSkipped(b, s);
  }

  // ----- values of the integer types -----

  predicate IntType(vt: nat)
  {
    vt in {VT_I2, VT_I4, VT_I8, VT_CY, VT_BOOL, VT_UI1, VT_UI2, VT_UI4, VT_UI8}
  }

  predicate SignedType(vt: nat)
  {
    vt in {VT_I2, VT_I4, VT_I8, VT_CY, VT_BOOL}
  }

  /** Whether the bit pattern of a signed type has its sign bit set. */
  predicate Negative(vt: nat, bits: nat)
  {
    SignedType(vt) && 2 * bits >= Pow256(Width(vt))
  }

  /** The absolute value of the bit pattern. */
  function Size(vt: nat, bits: nat): nat
    requires bits < Pow256(Width(vt))
  {
    if Negative(vt, bits) then Pow256(Width(vt)) - bits else bits
  }

  /** The bit pattern of a number reduced to the given modulus. */
  function Wrapped(n: Number, modulus: nat): (r: nat)
    requires modulus > 0
    ensures r < modulus
  {
    if n.neg && n.size % modulus != 0 then modulus - n.size % modulus else n.size % modulus
  }

  /** wcstol and wcstoll on a 64-bit long report ERANGE. */
  predicate SignedRange(n: Number)
  {
    if n.neg then n.size <= U32 * 0x8000_0000 else n.size < U32 * 0x8000_0000
  }

  predicate UnsignedRange(n: Number)
  {
    n.size < U32 * U32
  }

  /**
   * What an integer type makes of a number read; minus says that the text starts with '-'. The range
   * tests are the source's: VT_UI1 is tested against 65535 and then cut to a byte.
   */
  function LeafValue(vt: nat, n: Number, minus: bool): Option<nat>
  {
    if SignedType(vt) then
      if !SignedRange(n) then None
      else if vt == VT_I4 then Some(Wrapped(n, U32))
      else if vt == VT_BOOL then Some(if Wrapped(n, U32) != 0 then 0xFFFF else 0)
      else if vt == VT_I2 then
        (var w := Wrapped(n, U32);
         if w < 0x8000 then Some(w) else if w >= U32 - 0x8000 then Some(w - (U32 - U16)) else None)
      else Some(Wrapped(n, U32 * U32))
    else if IntType(vt) then
      if !UnsignedRange(n) then None
      else if vt == VT_UI1 || vt == VT_UI2 then
        (var w := Wrapped(n, U32);
         if w >= U16 then None else Some(if vt == VT_UI1 then w % 256 else w))
      else if minus then None
      else Some(Wrapped(n, if vt == VT_UI4 then U32 else U32 * U32))
    else None
  }

  /** Bstr2Variant for the integer types and the empty ones. A fraction after the number is dropped. */
  function ParseLeaf(vt: nat, s: Text): (r: Option<nat>)
  {
    if s == [] then None
    else if vt == VT_EMPTY || vt == VT_NULL then Some(0)
    else
      var n := ReadNumber(s);
      if n.rest != [] && n.rest[0] != DOT then None else LeafValue(vt, n, s[0] == MINUS)
  }

  /** Variant2Bstr for the integer types. */
  function PrintLeaf(vt: nat, bits: nat): Option<Text>
    requires IntType(vt) ==> bits < Pow256(Width(vt))
  {
    if IntType(vt) then Some(Signed(Negative(vt, bits), Size(vt, bits))) else None
  }

  /** Two's complement of so many bit patterns. */
  predicate SignedText(vt: nat, bits: nat, patterns: nat)
    requires bits < Pow256(Width(vt))
  {
    && bits < patterns
    && PrintLeaf(vt, bits) == Some(if 2 * bits < patterns then Decimal(bits) else [45] + Decimal(patterns - bits))
  }

  /** The text of every bit pattern, by the number of its type: two's complement in a signed one, none for others. */
  lemma PrintedByNumber(vt: nat, bits: nat)
    requires bits < Pow256(Width(vt))
    ensures PrintLeaf(vt, bits).Some? <==> vt in {2, 3, 6, 11, 17, 18, 19, 20, 21}
    ensures vt in {17, 18, 19, 21} ==> PrintLeaf(vt, bits) == Some(Decimal(bits))
    ensures vt == 2 || vt == 11 ==> SignedText(vt, bits, 65536)
    ensures vt == 3 ==> SignedText(vt, bits, 0x1_0000_0000)
    ensures vt == 6 || vt == 20 ==> SignedText(vt, bits, 0x1_0000_0000_0000_0000)
  {
    PowValues();
  }

  /** The bit patterns that keep their value through text: a VT_BOOL must be one of the two canonical ones. */
  predicate LeafOk(vt: nat, bits: nat)
  {
    IntType(vt) && (vt == VT_BOOL ==> bits == 0 || bits == 0xFFFF)
  }

  /** Taking the absolute value and wrapping it back returns the bit pattern. */
  lemma WrappedBack(neg: bool, bits: nat, width: nat, modulus: nat)
    requires bits < width <= modulus && (neg ==> 0 < bits)
    ensures var n := Number(neg, if neg then width - bits else bits, []);
            Wrapped(n, modulus) == if neg then modulus - (width - bits) else bits
  {
    var size := if neg then width - bits else bits;
    assert size % modulus == size;
  }

  lemma LeafValueBack(vt: nat, bits: nat)
    requires bits < Pow256(Width(vt)) && IntType(vt)
    ensures LeafValue(vt, Number(Negative(vt, bits), Size(vt, bits), []), Negative(vt, bits)) == Some(bits)
      <==> LeafOk(vt, bits)
  {
    PowValues();
    var neg := Negative(vt, bits);
    if vt == VT_I2 || vt == VT_BOOL {
      WrappedBack(neg, bits, U16, U32);
    } else if vt == VT_I4 {
      WrappedBack(neg, bits, U32, U32);
    } else if SignedType(vt) {
      WrappedBack(neg, bits, U32 * U32, U32 * U32);
    } else if vt == VT_UI8 {
      WrappedBack(neg, bits, U32 * U32, U32 * U32);
    } else {
      WrappedBack(neg, bits, Pow256(Width(vt)), U32);
    }
  }

  /** A printed leaf reads back as itself exactly when it is canonical. */
  lemma LeafRoundTrip(vt: nat, bits: nat)
    requires bits < Pow256(Width(vt)) && IntType(vt)
    ensures ParseLeaf(vt, PrintLeaf(vt, bits).value) == Some(bits) <==> LeafOk(vt, bits)
  {
    var t := PrintLeaf(vt, bits).value;
    ReadSigned(Negative(vt, bits), Size(vt, bits), []);
    assert t + [] == t;
    LeafValueBack(vt, bits);
  }

  /** The number read, as an integer. */
  function ValueOf(n: Number): int
  {
    if n.neg then 0 - n.size else n.size
  }

  lemma Multiples(k: int, modulus: int)
    requires modulus > 0
    ensures k >= 1 ==> k * modulus >= modulus
    ensures k <= -1 ==> k * modulus <= -modulus
  {
  }

  lemma ModIs(x: int, q: int, r: int, modulus: int)
    requires x == q * modulus + r && 0 <= r < modulus
    ensures x % modulus == r
  {
    var k := x / modulus - q;
    assert k * modulus == r - x % modulus;
    Multiples(k, modulus);
  }

  lemma WrappedIsMod(n: Number, modulus: nat)
    requires modulus > 0
    ensures Wrapped(n, modulus) == ValueOf(n) % modulus
  {
    var q, r := n.size / modulus, n.size % modulus;
    if n.neg && r != 0 {
      assert 0 - n.size == (0 - q - 1) * modulus + (modulus - r);
      ModIs(0 - n.size, 0 - q - 1, modulus - r, modulus);
    } else if n.neg {
      assert 0 - n.size == (0 - q) * modulus + 0;
      ModIs(0 - n.size, 0 - q, 0, modulus);
    }
  }

  /** v cut to 32 bits and read as a signed number. */
  function SignedWord(v: int): int
  {
    (v + 0x8000_0000) % 0x1_0000_0000 - 0x8000_0000
  }

  /** The signed types in integers: 32 bits are kept of a 64-bit number, and VT_I2 must fit what is kept. */
  lemma SignedLeaf(vt: nat, n: Number, minus: bool)
    ensures var v := ValueOf(n);
            !(-0x8000_0000_0000_0000 <= v < 0x8000_0000_0000_0000) && vt in {2, 3, 6, 11, 20}
            ==> LeafValue(vt, n, minus) == None
    ensures var v := ValueOf(n);
            -0x8000_0000_0000_0000 <= v < 0x8000_0000_0000_0000 ==>
            && LeafValue(3, n, minus) == Some(v % 0x1_0000_0000)
            && LeafValue(20, n, minus) == LeafValue(6, n, minus) == Some(v % 0x1_0000_0000_0000_0000)
            && LeafValue(11, n, minus) == Some(if SignedWord(v) == 0 then 0 else 65535)
            && LeafValue(2, n, minus)
               == if -32768 <= SignedWord(v) <= 32767 then Some(SignedWord(v) % 65536) else None
  {
    WrappedIsMod(n, U32);
    WrappedIsMod(n, U32 * U32);
  }

  /** The unsigned types: a minus sign is refused for the two widest only, and VT_UI1 is tested as a 16-bit value. */
  lemma UnsignedLeaf(vt: nat, n: Number, minus: bool)
    ensures n.size >= 0x1_0000_0000_0000_0000 && vt in {17, 18, 19, 21} ==> LeafValue(vt, n, minus) == None
    ensures n.size < 0x1_0000_0000_0000_0000 ==>
            && LeafValue(19, n, minus) == (if minus then None else Some(ValueOf(n) % 0x1_0000_0000))
            && LeafValue(21, n, minus) == (if minus then None else Some(ValueOf(n) % 0x1_0000_0000_0000_0000))
    ensures n.size < 0x1_0000_0000_0000_0000 ==>
            var w := ValueOf(n) % 0x1_0000_0000;
            && LeafValue(18, n, minus) == (if w <= 65535 then Some(w) else None)
            && LeafValue(17, n, minus) == (if w <= 65535 then Some(w % 256) else None)
  {
    WrappedIsMod(n, U32);
    WrappedIsMod(n, U32 * U32);
  }

  /** Text to value: a numeral, then the end or a point with anything behind it, and nothing else. */
  lemma LeafOfText(vt: nat, b: Text, sign: Text, prefix: Text, h: Text, base: nat, rest: Text)
    requires Blanks(b) && IsSign(sign) && Numeral(prefix, h, base, rest) && vt >= 2
    ensures var s := b + (sign + (prefix + (h + rest)));
            var minus := b == [] && sign == [45];
            && (rest == [] || rest[0] == 46 ==>
                ParseLeaf(vt, s) == LeafValue(vt, Number(sign == [45], Digits(h, base), rest), minus))
            && (rest != [] && rest[0] != 46 ==> ParseLeaf(vt, s) == None)
  {
    var t := prefix + (h + rest);
    var u := sign + t;
    var s := b + u;
    NumberRead(b, sign, prefix, h, base, rest);
    assert t[0] == if base == 10 then h[0] else 48;
    assert u[0] == if sign == [] then t[0] else sign[0];
    assert s[0] == if b == [] then u[0] else b[0];
  }

  /** The empty text is never a value; the empty types take any other text. */
  lemma EmptyTypes(vt: nat, s: Text)
    ensures s == [] ==> ParseLeaf(vt, s) == None
    ensures s != [] && vt <= 1 ==> ParseLeaf(vt, s) == Some(0)
  {
  }

  predicate NumberText(t: Text)
  {
    t != [] && forall i :: 0 <= i < |t| ==> 48 <= t[i] <= 57 || t[i] == MINUS
  }

  lemma PrintedIsNumber(neg: bool, n: nat)
    ensures NumberText(Signed(neg, n))
  {
  }

  lemma {:induction false} NumberIsPlain(t: Text)
    requires forall i :: 0 <= i < |t| ==> 48 <= t[i] <= 57 || t[i] == MINUS
    ensures Plain(t)
  {
    if t != [] {
      NumberIsPlain(t[..|t| - 1]);
      assert t == t[..|t| - 1] + [t[|t| - 1]];
    }
  }
}
