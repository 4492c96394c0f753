/**
 * The CRC of b-CAP frames on serial lines: generator x^16 + x^12 + x^5 + 1, initial value 0xFFFF.
 * A 16-bit register is its sequence of bits, the most significant first.
 */
module Crc {
  import opened Wire

  /** The k low bits of n, the most significant first. */
  function ToBits(n: nat, k: nat): (r: seq<bool>)
    ensures |r| == k
  {
    if k == 0 then [] else ToBits(n / 2, k - 1) + [n % 2 == 1]
  }

  function FromBits(b: seq<bool>): nat
  {
    if b == [] then 0 else 2 * FromBits(b[..|b| - 1]) + (if b[|b| - 1] then 1 else 0)
  }

  /** 0xFFFF */
  const INITIAL := [true, true, true, true, true, true, true, true, true, true, true, true, true, true, true, true]

  /** 0x1021 */
  const GENERATOR := [false, false, false, true, false, false, false, false,
                      false, false, true, false, false, false, false, true]

  function Xor(x: seq<bool>, y: seq<bool>): (r: seq<bool>)
    requires |x| == |y|
    ensures |r| == |x|
    ensures forall i :: 0 <= i < |x| ==> r[i] == (x[i] != y[i])
  {
    seq(|x|, i requires 0 <= i < |x| => x[i] != y[i])
  }

  function Zero(n: nat): (r: seq<bool>)
    ensures |r| == n && Silent(r)
  {
    if n == 0 then [] else [false] + Zero(n - 1)
  }

  predicate Silent(z: seq<bool>)
  {
    forall i :: 0 <= i < |z| ==> !z[i]
  }

  // ----- the computation -----

  /** crc << 1 in 16 bits */
  function Left(c: seq<bool>): (r: seq<bool>)
    requires |c| == 16
    ensures |r| == 16
  {
    c[1..] + [false]
  }

  /** One round of the inner loop. */
  function Shift(c: seq<bool>): (r: seq<bool>)
    requires |c| == 16
    ensures |r| == 16
  {
    if c[0] then Xor(Left(c), GENERATOR) else Left(c)
  }

  function Shifts(c: seq<bool>, n: nat): (r: seq<bool>)
    requires |c| == 16
    ensures |r| == 16
    decreases n
  {
    if n == 0 then c else Shifts(Shift(c), n - 1)
  }

  /** One round of the outer loop. */
  function Absorb(c: seq<bool>, b: byte): (r: seq<bool>)
    requires |c| == 16
    ensures |r| == 16
  {
    Shifts(Xor(c, ToBits(b, 8) + Zero(8)), 8)
  }

  function CrcFrom(c: seq<bool>, s: seq<byte>): (r: seq<bool>)
    requires |c| == 16
    ensures |r| == 16
    decreases |s|
  {
    if s == [] then c else CrcFrom(Absorb(c, s[0]), s[1..])
  }

  /** The checksum of s as a number. */
  function Checksum(s: seq<byte>): nat
  {
    FromBits(CrcFrom(INITIAL, s))
  }

  method AbsorbByte(c: seq<bool>, b: byte) returns (crc: seq<bool>)
    requires |c| == 16
    ensures crc == Absorb(c, b)
  {
    crc := Xor(c, ToBits(b, 8) + Zero(8));
    for cnt := 0 to 8
      invariant |crc| == 16 && Shifts(crc, 8 - cnt) == Absorb(c, b)
    {
      if crc[0] {
        crc := Xor(Left(crc), GENERATOR);
      } else {
        crc := Left(crc);
      }
    }
  }

  /** bcap_calc_crc */
  method CalcCrc(buf: seq<byte>) returns (crc: seq<bool>)
    ensures crc == CrcFrom(INITIAL, buf)
  {
    crc := INITIAL;
    for pos := 0 to |buf|
      invariant |crc| == 16 && CrcFrom(crc, buf[pos..]) == CrcFrom(INITIAL, buf)
    {
      assert buf[pos..][1..] == buf[pos + 1..];
      crc := AbsorbByte(crc, buf[pos]);
    }
  }

  // ----- the same computation bit by bit -----

  function In(c: seq<bool>, b: bool): (r: seq<bool>)
    requires |c| == 16
    ensures |r| == 16
  {
    Shift(c[0 := c[0] != b])
  }

  function Feed(c: seq<bool>, bits: seq<bool>): (r: seq<bool>)
    requires |c| == 16
    ensures |r| == 16
    decreases |bits|
  {
    if bits == [] then c else Feed(In(c, bits[0]), bits[1..])
  }

  function Bits(s: seq<byte>): (r: seq<bool>)
    ensures |r| == 8 * |s|
  {
    if s == [] then [] else ToBits(s[0], 8) + Bits(s[1..])
  }

  lemma {:induction false} FeedAppend(c: seq<bool>, x: seq<bool>, y: seq<bool>)
    requires |c| == 16
    ensures Feed(c, x + y) == Feed(Feed(c, x), y)
    decreases |x|
  {
    if x == [] {
      assert x + y == y;
    } else {
      assert (x + y)[1..] == x[1..] + y;
      FeedAppend(In(c, x[0]), x[1..], y);
    }
  }

  /** x at the top of a register. */
  function Pad(x: seq<bool>): (r: seq<bool>)
    requires |x| <= 16
    ensures |r| == 16
  {
    x + Zero(16 - |x|)
  }

  lemma ShiftLinear(c: seq<bool>, d: seq<bool>)
    requires |c| == 16 && |d| == 16
    ensures Shift(Xor(c, d)) == Xor(Shift(c), Shift(d))
  {
  }

  /** Up to 16 bits can be taken in together at the top and shifted through afterwards. */
  lemma {:induction false} FeedIsShifts(c: seq<bool>, x: seq<bool>)
    requires |c| == 16 && |x| <= 16
    ensures Feed(c, x) == Shifts(Xor(c, Pad(x)), |x|)
    decreases |x|
  {
    if x == [] {
      assert Xor(c, Pad(x)) == c;
    } else {
      var c', d := c[0 := c[0] != x[0]], [false] + x[1..] + Zero(16 - |x|);
      assert Xor(c, Pad(x)) == Xor(c', d);
      ShiftLinear(c', d);
      assert Shift(d) == Pad(x[1..]);
      FeedIsShifts(In(c, x[0]), x[1..]);
    }
  }

  lemma {:induction false} CrcFeeds(c: seq<bool>, s: seq<byte>)
    requires |c| == 16
    ensures CrcFrom(c, s) == Feed(c, Bits(s))
    decreases |s|
  {
    if s != [] {
      FeedIsShifts(c, ToBits(s[0], 8));
      FeedAppend(c, ToBits(s[0], 8), Bits(s[1..]));
      CrcFeeds(Absorb(c, s[0]), s[1..]);
    }
  }

  // ----- the start value -----

  /** The first sixteen bits complemented. */
  function Complemented(x: seq<bool>): (r: seq<bool>)
    requires |x| >= 16
    ensures |r| == |x|
  {
    seq(|x|, i requires 0 <= i < |x| => if i < 16 then !x[i] else x[i])
  }

  /** Only the register xored with the bits to come matters. */
  lemma SameFeed(c: seq<bool>, x: seq<bool>, d: seq<bool>, y: seq<bool>)
    requires |c| == 16 && |d| == 16 && |x| == |y| <= 16 && Xor(c, Pad(x)) == Xor(d, Pad(y))
    ensures Feed(c, x) == Feed(d, y)
  {
    FeedIsShifts(c, x);
    FeedIsShifts(d, y);
  }

  lemma OnesComplement(x: seq<bool>)
    requires |x| == 16
    ensures Xor(INITIAL, Pad(x)) == Xor(Zero(16), Pad(Complemented(x)))
  {
    var u, v := Xor(INITIAL, Pad(x)), Xor(Zero(16), Pad(Complemented(x)));
    forall i | 0 <= i < 16 ensures u[i] == v[i] {
      assert INITIAL[i] && Pad(x)[i] == x[i] && Pad(Complemented(x))[i] == !x[i];
    }
  }

  lemma Parts(x: seq<bool>)
    requires |x| >= 16
    ensures x == x[..16] + x[16..] && Complemented(x) == Complemented(x[..16]) + x[16..]
  {
  }

  /** The checksum is that of an empty register fed the bits, the first sixteen complemented. */
  lemma CrcComplements(s: seq<byte>)
    requires |s| >= 2
    ensures CrcFrom(INITIAL, s) == Feed(Zero(16), Complemented(Bits(s)))
  {
    var first, rest := Bits(s)[..16], Bits(s)[16..];
    CrcFeeds(INITIAL, s);
    Parts(Bits(s));
    FeedAppend(INITIAL, first, rest);
    FeedAppend(Zero(16), Complemented(first), rest);
    OnesComplement(first);
    SameFeed(INITIAL, first, Zero(16), Complemented(first));
  }

  lemma XorSelf(c: seq<bool>)
    requires |c| == 16
    ensures Silent(Xor(c, Pad(c)))
  {
    assert forall i :: 0 <= i < 16 ==> Pad(c)[i] == c[i];
  }

  lemma FeedsItself(c: seq<bool>, x: seq<bool>)
    requires |c| == 16 && x == c
    ensures Silent(Feed(c, x))
  {
    FeedIsShifts(c, x);
    XorSelf(c);
    ShiftsInvertible(Xor(c, Pad(x)), |x|);
  }

  /** A message with its checksum behind it, the high byte first, brings the register to zero. */
  lemma CrcCancels(s: seq<byte>)
    ensures Silent(Feed(INITIAL, Bits(s) + CrcFrom(INITIAL, s)))
  {
    CrcFeeds(INITIAL, s);
    FeedAppend(INITIAL, Bits(s), CrcFrom(INITIAL, s));
    FeedsItself(CrcFrom(INITIAL, s), CrcFrom(INITIAL, s));
  }

  // ----- linearity and invertibility -----

  lemma {:induction false} FeedLinear(c: seq<bool>, d: seq<bool>, x: seq<bool>, y: seq<bool>)
    requires |c| == 16 && |d| == 16 && |x| == |y|
    ensures Feed(Xor(c, d), Xor(x, y)) == Xor(Feed(c, x), Feed(d, y))
    decreases |x|
  {
    if x != [] {
      var c', d' := c[0 := c[0] != x[0]], d[0 := d[0] != y[0]];
      var e := Xor(c, d);
      assert e[0 := e[0] != Xor(x, y)[0]] == Xor(c', d');
      ShiftLinear(c', d');
      FeedLinear(In(c, x[0]), In(d, y[0]), x[1..], y[1..]);
      assert Xor(x, y)[1..] == Xor(x[1..], y[1..]);
    }
  }

  /** The constant term of the generator makes each shift invertible. */
  lemma ShiftInvertible(c: seq<bool>)
    requires |c| == 16
    ensures Silent(Shift(c)) <==> Silent(c)
  {
    var l := Left(c);
    if c[0] {
      assert Shift(c)[15] == (l[15] != GENERATOR[15]);
    } else {
      assert forall i :: 0 <= i < 15 ==> l[i] == c[i + 1];
      assert forall i :: 1 <= i < 16 ==> c[i] == l[i - 1];
    }
  }

  lemma {:induction false} ShiftsInvertible(c: seq<bool>, n: nat)
    requires |c| == 16
    ensures Silent(Shifts(c, n)) <==> Silent(c)
    decreases n
  {
    if n > 0 {
      ShiftInvertible(c);
      ShiftsInvertible(Shift(c), n - 1);
    }
  }

  lemma {:induction false} FeedSilence(c: seq<bool>, z: seq<bool>)
    requires |c| == 16 && Silent(z)
    ensures Silent(Feed(c, z)) <==> Silent(c)
    decreases |z|
  {
    if z != [] {
      assert c[0 := c[0] != z[0]] == c;
      ShiftInvertible(c);
      FeedSilence(In(c, z[0]), z[1..]);
    }
  }

  /** No 16 bits other than zeros bring a zero register back to zero. */
  lemma WindowDetected(c: seq<bool>, w: seq<bool>)
    requires |c| == 16 && Silent(c) && |w| <= 16 && Silent(Feed(c, w))
    ensures Silent(w)
  {
    var p := Xor(c, Pad(w));
    FeedIsShifts(c, w);
    ShiftsInvertible(p, |w|);
    assert forall i :: 0 <= i < |w| ==> p[i] == w[i];
  }

  // ----- burst detection -----

  /** All set bits lie among the 16 from position p on. */
  ghost predicate Burst(d: seq<bool>, p: nat)
  {
    forall i :: 0 <= i < |d| && d[i] ==> p <= i < p + 16
  }

  lemma BurstDetected(c: seq<bool>, d: seq<bool>, p: nat)
    requires |c| == 16 && Silent(c) && Burst(d, p) && Silent(Feed(c, d))
    ensures Silent(d)
  {
    var a := if p <= |d| then p else |d|;
    var b := if p + 16 <= |d| then p + 16 else |d|;
    var u, w, v := d[..a], d[a..b], d[b..];
    assert d == u + (w + v);
    FeedAppend(c, u, w + v);
    FeedSilence(c, u);
    var c1 := Feed(c, u);
    FeedAppend(c1, w, v);
    FeedSilence(Feed(c1, w), v);
    WindowDetected(c1, w);
  }

  lemma {:induction false} BitsBack(n: nat, k: nat)
    requires n < Two(k)
    ensures FromBits(ToBits(n, k)) == n
  {
    if k > 0 {
      BitsBack(n / 2, k - 1);
      assert ToBits(n, k)[..k - 1] == ToBits(n / 2, k - 1);
    }
  }

  function Two(k: nat): nat
  {
    if k == 0 then 1 else 2 * Two(k - 1)
  }

  lemma {:induction false} BackBits(b: seq<bool>)
    ensures ToBits(FromBits(b), |b|) == b && FromBits(b) < Two(|b|)
  {
    if b != [] {
      BackBits(b[..|b| - 1]);
      assert b == b[..|b| - 1] + [b[|b| - 1]];
    }
  }

  lemma {:induction false} BitsInjective(x: seq<byte>, y: seq<byte>)
    requires |x| == |y| && Bits(x) == Bits(y)
    ensures x == y
  {
    if x != [] {
      assert ToBits(x[0], 8) == Bits(x)[..8] && ToBits(y[0], 8) == Bits(y)[..8];
      assert Bits(x[1..]) == Bits(x)[8..] && Bits(y[1..]) == Bits(y)[8..];
      TwoOf8();
      BitsBack(x[0], 8);
      BitsBack(y[0], 8);
      BitsInjective(x[1..], y[1..]);
      assert x == [x[0]] + x[1..] && y == [y[0]] + y[1..];
    }
  }

  lemma TwoOf8()
    ensures Two(8) == 256 && Two(16) == U16
  {
    assert Two(3) == 8;
    assert Two(6) == 8 * Two(3);
    assert Two(8) == 4 * Two(6);
    assert Two(11) == 8 * Two(8);
    assert Two(14) == 8 * Two(11);
  }

  lemma SameRegister(x: seq<byte>, y: seq<byte>)
    requires Checksum(x) == Checksum(y)
    ensures CrcFrom(INITIAL, x) == CrcFrom(INITIAL, y)
  {
    BackBits(CrcFrom(INITIAL, x));
    BackBits(CrcFrom(INITIAL, y));
  }

  /** The feed of a difference is the difference of the checksums. */
  lemma CrcLinear(x: seq<byte>, y: seq<byte>)
    requires |x| == |y|
    ensures Feed(Xor(INITIAL, INITIAL), Xor(Bits(x), Bits(y)))
         == Xor(CrcFrom(INITIAL, x), CrcFrom(INITIAL, y))
  {
    CrcFeeds(INITIAL, x);
    CrcFeeds(INITIAL, y);
    FeedLinear(INITIAL, INITIAL, Bits(x), Bits(y));
  }

  /** Buffers of any one length that differ, but only within 16 consecutive bits, differ in checksum. */
  lemma CrcDetectsBursts(x: seq<byte>, y: seq<byte>, p: nat)
    requires |x| == |y| && x != y
    requires Burst(Xor(Bits(x), Bits(y)), p)
    ensures Checksum(x) != Checksum(y)
  {
    if Checksum(x) == Checksum(y) {
      SameRegister(x, y);
      var d := Xor(Bits(x), Bits(y));
      CrcLinear(x, y);
      BurstDetected(Xor(INITIAL, INITIAL), d, p);
      assert Bits(x) == Bits(y) by {
        assert forall i :: 0 <= i < |d| ==> d[i] == (Bits(x)[i] != Bits(y)[i]);
      }
      BitsInjective(x, y);
      assert false;
    }
  }

  // ----- hexadecimal digits -----

  /** Four bits, the most significant first. */
  datatype Nibble = Nibble(n8: bool, n4: bool, n2: bool, n1: bool)

  /** A register of four hexadecimal digits. */
  datatype Word = Word(d3: Nibble, d2: Nibble, d1: Nibble, d0: Nibble)

  const X0 := Nibble(false, false, false, false)
  const X1 := Nibble(false, false, false, true)
  const X2 := Nibble(false, false, true, false)
  const X3 := Nibble(false, false, true, true)
  const X4 := Nibble(false, true, false, false)
  const X5 := Nibble(false, true, false, true)
  const X6 := Nibble(false, true, true, false)
  const X7 := Nibble(false, true, true, true)
  const X8 := Nibble(true, false, false, false)
  const X9 := Nibble(true, false, false, true)
  const XA := Nibble(true, false, true, false)
  const XB := Nibble(true, false, true, true)
  const XC := Nibble(true, true, false, false)
  const XD := Nibble(true, true, false, true)
  const XE := Nibble(true, true, true, false)
  const XF := Nibble(true, true, true, true)

  function Hex(n: nat): Nibble
  {
    match n
    case 0 => X0
    case 1 => X1
    case 2 => X2
    case 3 => X3
    case 4 => X4
    case 5 => X5
    case 6 => X6
    case 7 => X7
    case 8 => X8
    case 9 => X9
    case 10 => XA
    case 11 => XB
    case 12 => XC
    case 13 => XD
    case 14 => XE
    case _ => XF
  }

  function Plus(x: Nibble, y: Nibble): Nibble
  {
    Nibble(x.n8 != y.n8, x.n4 != y.n4, x.n2 != y.n2, x.n1 != y.n1)
  }

  function Four(x: Nibble): (r: seq<bool>)
    ensures |r| == 4
  {
    [x.n8, x.n4, x.n2, x.n1]
  }

  function Register(w: Word): (r: seq<bool>)
    ensures |r| == 16
  {
    [w.d3.n8, w.d3.n4, w.d3.n2, w.d3.n1, w.d2.n8, w.d2.n4, w.d2.n2, w.d2.n1,
     w.d1.n8, w.d1.n4, w.d1.n2, w.d1.n1, w.d0.n8, w.d0.n4, w.d0.n2, w.d0.n1]
  }

  function Value(x: Nibble): nat
  {
    (if x.n8 then 8 else 0) + (if x.n4 then 4 else 0) + (if x.n2 then 2 else 0) + (if x.n1 then 1 else 0)
  }

  lemma LastBit(b: seq<bool>, x: bool)
    ensures FromBits(b + [x]) == 2 * FromBits(b) + (if x then 1 else 0)
  {
    assert (b + [x])[..|b|] == b;
  }

  lemma OneByOne<T>(b: seq<T>, x: seq<T>)
    requires |x| == 4
    ensures b + x == b + [x[0]] + [x[1]] + [x[2]] + [x[3]]
  {
  }

  lemma LastDigit(b: seq<bool>, x: Nibble)
    ensures FromBits(b + Four(x)) == 16 * FromBits(b) + Value(x)
  {
    OneByOne(b, Four(x));
    LastBit(b, x.n8);
    LastBit(b + [x.n8], x.n4);
    LastBit(b + [x.n8] + [x.n4], x.n2);
    LastBit(b + [x.n8] + [x.n4] + [x.n2], x.n1);
  }

  lemma FourParts<T>(r: seq<T>)
    requires |r| == 16
    ensures r == [] + r[..4] + r[4..8] + r[8..12] + r[12..]
  {
  }

  lemma Slice(r: seq<bool>, i: nat, x: Nibble)
    requires i + 4 <= |r| && r[i] == x.n8 && r[i + 1] == x.n4 && r[i + 2] == x.n2 && r[i + 3] == x.n1
    ensures r[i..i + 4] == Four(x)
  {
    assert |Four(x)| == 4;
  }

  lemma RegisterDigits(w: Word)
    ensures Register(w) == [] + Four(w.d3) + Four(w.d2) + Four(w.d1) + Four(w.d0)
  {
    var r := Register(w);
    FourParts(r);
    assert r[..4] == Four(w.d3) by { Slice(r, 0, w.d3); }
    assert r[4..8] == Four(w.d2) by { Slice(r, 4, w.d2); }
    assert r[8..12] == Four(w.d1) by { Slice(r, 8, w.d1); }
    assert r[12..] == Four(w.d0) by { Slice(r, 12, w.d0); }
  }

  lemma WordValue(w: Word)
    ensures FromBits(Register(w)) == 4096 * Value(w.d3) + 256 * Value(w.d2) + 16 * Value(w.d1) + Value(w.d0)
  {
    RegisterDigits(w);
    LastDigit([], w.d3);
    LastDigit([] + Four(w.d3), w.d2);
    LastDigit([] + Four(w.d3) + Four(w.d2), w.d1);
    LastDigit([] + Four(w.d3) + Four(w.d2) + Four(w.d1), w.d0);
  }

  // ----- the same computation on numbers -----

  /** ^ on numbers of k bits */
  function NumXor(a: nat, b: nat, k: nat): nat
  {
    if k == 0 then 0 else 2 * NumXor(a / 2, b / 2, k - 1) + (if a % 2 != b % 2 then 1 else 0)
  }

  /** The inner loop's round: shift left in 16 bits, and the generator if a bit falls out. */
  function NumShift(crc: nat): nat
  {
    if crc >= 0x8000 then NumXor(2 * crc % 0x1_0000, 0x1021, 16) else 2 * crc % 0x1_0000
  }

  function NumShifts(crc: nat, n: nat): nat
    decreases n
  {
    if n == 0 then crc else NumShifts(NumShift(crc), n - 1)
  }

  function NumCrc(crc: nat, s: seq<byte>): nat
    decreases |s|
  {
    if s == [] then crc else NumCrc(NumShifts(NumXor(crc, 256 * s[0] as int, 16), 8), s[1..])
  }

  lemma XorFront(x: seq<bool>, y: seq<bool>, n: nat)
    requires |x| == |y| == n + 1
    ensures Xor(x, y)[..n] == Xor(x[..n], y[..n]) && Xor(x, y)[n] == (x[n] != y[n])
  {
  }

  lemma LastOf(a: nat, x: bool)
    ensures var n := 2 * a + (if x then 1 else 0); n / 2 == a && (n % 2 == 1 <==> x)
  {
  }

  lemma {:induction false} XorIsNum(x: seq<bool>, y: seq<bool>)
    requires |x| == |y|
    ensures FromBits(Xor(x, y)) == NumXor(FromBits(x), FromBits(y), |x|)
    decreases |x|
  {
    if x != [] {
      var n := |x| - 1;
      XorIsNum(x[..n], y[..n]);
      XorFront(x, y, n);
      LastOf(FromBits(x[..n]), x[n]);
      LastOf(FromBits(y[..n]), y[n]);
    }
  }

  lemma {:induction false} TopBit(c: seq<bool>)
    requires c != []
    ensures FromBits(c) == (if c[0] then Two(|c| - 1) else 0) + FromBits(c[1..])
  {
    var n := |c| - 1;
    if n > 0 {
      TopBit(c[..n]);
      assert c[..n][1..] == c[1..][..n - 1];
    }
  }

  lemma TwoOf15()
    ensures Two(15) == 0x8000
  {
    assert Two(5) == 32;
    assert Two(10) == 32 * Two(5);
  }

  lemma Doubled(top: bool, low: nat)
    requires low < 0x8000
    ensures var n := (if top then 0x8000 else 0) + low;
            2 * n % 0x1_0000 == 2 * low && (top <==> n >= 0x8000)
  {
  }

  lemma LeftIsNum(c: seq<bool>)
    requires |c| == 16
    ensures FromBits(Left(c)) == 2 * FromBits(c) % 0x1_0000 && (c[0] <==> FromBits(c) >= 0x8000)
  {
    var low := c[1..];
    TopBit(c);
    BackBits(low);
    TwoOf15();
    Doubled(c[0], FromBits(low));
    LastBit(low, false);
  }

  lemma GeneratorValue()
    ensures FromBits(GENERATOR) == 0x1021
  {
    assert GENERATOR == Register(Word(X1, X0, X2, X1));
    WordValue(Word(X1, X0, X2, X1));
  }

  lemma ShiftIsNum(c: seq<bool>)
    requires |c| == 16
    ensures FromBits(Shift(c)) == NumShift(FromBits(c))
  {
    LeftIsNum(c);
    GeneratorValue();
    XorIsNum(Left(c), GENERATOR);
  }

  lemma {:induction false} ShiftsAreNum(c: seq<bool>, n: nat)
    requires |c| == 16
    ensures FromBits(Shifts(c, n)) == NumShifts(FromBits(c), n)
    decreases n
  {
    if n > 0 {
      ShiftIsNum(c);
      ShiftsAreNum(Shift(c), n - 1);
    }
  }

  /** n shifted left */
  function Up(h: nat, n: nat): nat
  {
    if n == 0 then h else 2 * Up(h, n - 1)
  }

  lemma UpBy4And8(h: nat)
    ensures Up(h, 4) == 16 * h && Up(h, 8) == 256 * h
  {
    assert Up(h, 2) == 2 * Up(h, 1);
    assert Up(h, 4) == 4 * Up(h, 2);
    assert Up(h, 6) == 4 * Up(h, 4);
  }

  lemma {:induction false} ShiftedUp(x: seq<bool>, n: nat)
    ensures FromBits(x + Zero(n)) == Up(FromBits(x), n)
  {
    if n == 0 {
      assert x + Zero(0) == x;
    } else {
      ShiftedUp(x, n - 1);
      LastBit(x + Zero(n - 1), false);
      SilentParts(x, n);
    }
  }

  lemma SilentParts(x: seq<bool>, n: nat)
    requires n > 0
    ensures x + Zero(n) == x + Zero(n - 1) + [false]
  {
  }

  lemma ByteAtTop(b: byte)
    ensures FromBits(ToBits(b, 8) + Zero(8)) == 256 * b as int
  {
    TwoOf8();
    BitsBack(b, 8);
    ShiftedUp(ToBits(b, 8), 8);
    UpBy4And8(b as int);
  }

  lemma {:induction false} CrcIsNum(c: seq<bool>, s: seq<byte>)
    requires |c| == 16
    ensures FromBits(CrcFrom(c, s)) == NumCrc(FromBits(c), s)
    decreases |s|
  {
    if s != [] {
      var x := ToBits(s[0], 8) + Zero(8);
      ByteAtTop(s[0]);
      XorIsNum(c, x);
      ShiftsAreNum(Xor(c, x), 8);
      CrcIsNum(Absorb(c, s[0]), s[1..]);
    }
  }

  lemma StartValue()
    ensures FromBits(INITIAL) == 0xFFFF
  {
    assert INITIAL == Register(Word(XF, XF, XF, XF));
    WordValue(Word(XF, XF, XF, XF));
  }

  /** The checksum of any bytes, in 16-bit numbers as the code has them. */
  lemma ChecksumIsNum(s: seq<byte>)
    ensures Checksum(s) == NumCrc(0xFFFF, s)
  {
    StartValue();
    CrcIsNum(INITIAL, s);
  }

  // ----- half a byte at a time -----

  /** Four rounds in one: the digit t that falls out comes back as 0x1021 times t. */
  function Step(w: Word, n: Nibble): Word
  {
    var t := Plus(w.d3, n);
    Word(Plus(w.d2, t), Plus(w.d1, Nibble(false, false, false, t.n8)),
         Plus(w.d0, Nibble(t.n4, t.n2, t.n1, false)), t)
  }

  function StepByte(w: Word, b: byte): Word
  {
    Step(Step(w, Hex(b as int / 16)), Hex(b as int % 16))
  }

  function StepBytes(w: Word, s: seq<byte>): Word
    decreases |s|
  {
    if s == [] then w else StepBytes(StepByte(w, s[0]), s[1..])
  }

  /** A round: one place up, and the bit t that falls out changes the bits 12, 5 and 0. */
  function Moved(c: seq<bool>, t: bool): (r: seq<bool>)
    requires |c| == 16
    ensures |r| == 16
  {
    [c[1], c[2], c[3], c[4] != t, c[5], c[6], c[7], c[8],
     c[9], c[10], c[11] != t, c[12], c[13], c[14], c[15], t]
  }

  lemma InMoves(c: seq<bool>, b: bool)
    requires |c| == 16
    ensures In(c, b) == Moved(c, c[0] != b)
  {
  }

  lemma MovedFourTimes(w: Word, t: Nibble)
    ensures Moved(Moved(Moved(Moved(Register(w), t.n8), t.n4), t.n2), t.n1) ==
      Register(Word(Plus(w.d2, t), Plus(w.d1, Nibble(false, false, false, t.n8)),
                    Plus(w.d0, Nibble(t.n4, t.n2, t.n1, false)), t))
  {
  }

  lemma FeedNibble(w: Word, n: Nibble)
    ensures Feed(Register(w), Four(n)) == Register(Step(w, n))
  {
    var c0 := Register(w);
    var c1 := In(c0, n.n8);
    var c2 := In(c1, n.n4);
    var c3 := In(c2, n.n2);
    InMoves(c0, n.n8);
    InMoves(c1, n.n4);
    InMoves(c2, n.n2);
    InMoves(c3, n.n1);
    MovedFourTimes(w, Plus(w.d3, n));
    FeedFour(c0, n);
  }

  lemma FeedFour(c: seq<bool>, n: Nibble)
    requires |c| == 16
    ensures Feed(c, Four(n)) == In(In(In(In(c, n.n8), n.n4), n.n2), n.n1)
  {
    var c1, c2, c3 := In(c, n.n8), In(In(c, n.n8), n.n4), In(In(In(c, n.n8), n.n4), n.n2);
    assert Four(n)[1..] == [n.n4, n.n2, n.n1];
    assert [n.n4, n.n2, n.n1][1..] == [n.n2, n.n1];
    assert [n.n2, n.n1][1..] == [n.n1];
    assert [n.n1][1..] == [];
    assert Feed(c3, [n.n1]) == In(c3, n.n1);
    assert Feed(c2, [n.n2, n.n1]) == Feed(c3, [n.n1]);
    assert Feed(c1, [n.n4, n.n2, n.n1]) == Feed(c2, [n.n2, n.n1]);
  }

  lemma {:induction false} BitParts(h: nat, l: nat, j: nat, k: nat)
    requires l < Two(k)
    ensures ToBits(Up(h, k) + l, j + k) == ToBits(h, j) + ToBits(l, k)
  {
    if k > 0 {
      BitParts(h, l / 2, j, k - 1);
      assert (Up(h, k) + l) / 2 == Up(h, k - 1) + l / 2;
    } else {
      assert ToBits(h, j) + [] == ToBits(h, j);
    }
  }

  lemma FourBits(n: nat)
    requires n < 16
    ensures ToBits(n, 4) == [n >= 8, n % 8 >= 4, n % 4 >= 2, n % 2 == 1]
  {
    var t := n / 2;
    assert ToBits(t / 2, 2) == [t / 2 >= 2, t / 2 % 2 == 1];
    assert ToBits(t, 3) == ToBits(t / 2, 2) + [t % 2 == 1];
  }

  lemma HexBits(n: nat)
    requires n < 16
    ensures Four(Hex(n)) == ToBits(n, 4)
  {
    FourBits(n);
    assert Four(Hex(n)) == [n >= 8, n % 8 >= 4, n % 4 >= 2, n % 2 == 1];
  }

  lemma ByteNibbles(b: byte)
    ensures ToBits(b, 8) == Four(Hex(b as int / 16)) + Four(Hex(b as int % 16))
  {
    var hi, lo := b as int / 16, b as int % 16;
    UpBy4And8(hi);
    assert Two(4) == 16;
    BitParts(hi, lo, 4, 4);
    HexBits(hi);
    HexBits(lo);
  }

  /** Half a byte at a time gives the same register. */
  lemma {:induction false} StepsAreCrc(w: Word, s: seq<byte>)
    ensures CrcFrom(Register(w), s) == Register(StepBytes(w, s))
    decreases |s|
  {
    if s != [] {
      var b := s[0];
      var hi, lo := Hex(b as int / 16), Hex(b as int % 16);
      FeedIsShifts(Register(w), ToBits(b, 8));
      ByteNibbles(b);
      FeedAppend(Register(w), Four(hi), Four(lo));
      FeedNibble(w, hi);
      FeedNibble(Step(w, hi), lo);
      StepsAreCrc(StepByte(w, b), s[1..]);
    }
  }

  lemma Took(w: Word, b: byte, v: Word, s: seq<byte>)
    requires StepByte(w, b) == v
    ensures StepBytes(w, [b] + s) == StepBytes(v, s)
  {
    assert ([b] + s)[1..] == s;
  }

  lemma Figures(b: byte)
    requires 48 <= b < 58
    ensures Hex(b as int / 16) == X3 && Hex(b as int % 16) == Hex(b as int - 48)
  {
  }

  lemma TookThree(w: Word, b: byte, v: Word, c: byte, x: Word, d: byte, y: Word, s: seq<byte>)
    requires StepByte(w, b) == v && StepByte(v, c) == x && StepByte(x, d) == y
    ensures StepBytes(w, [b] + ([c] + ([d] + s))) == StepBytes(y, s)
  {
    Took(w, b, v, [c] + ([d] + s));
    Took(v, c, x, [d] + s);
    Took(x, d, y, s);
  }

  lemma OneToThree(s: seq<byte>)
    ensures StepBytes(Word(XF, XF, XF, XF), [49] + ([50] + ([51] + s))) == StepBytes(Word(X5, XB, XC, XE), s)
  {
    Figures(49);
    Figures(50);
    Figures(51);
    TookThree(Word(XF, XF, XF, XF), 49, Word(XC, X7, X8, X2), 50, Word(X3, XD, XB, XA), 51, Word(X5, XB, XC, XE), s);
  }

  lemma FourToSix(s: seq<byte>)
    ensures StepBytes(Word(X5, XB, XC, XE), [52] + ([53] + ([54] + s))) == StepBytes(Word(X2, XE, XF, X4), s)
  {
    Figures(52);
    Figures(53);
    Figures(54);
    TookThree(Word(X5, XB, XC, XE), 52, Word(X5, X3, X4, X9), 53, Word(X4, X5, X6, X0), 54, Word(X2, XE, XF, X4), s);
  }

  lemma SevenToNine(s: seq<byte>)
    ensures StepBytes(Word(X2, XE, XF, X4), [55] + ([56] + ([57] + s))) == StepBytes(Word(X2, X9, XB, X1), s)
  {
    Figures(55);
    Figures(56);
    Figures(57);
    TookThree(Word(X2, XE, XF, X4), 55, Word(X7, X7, X1, X8), 56, Word(XA, X1, X2, XB), 57, Word(X2, X9, XB, X1), s);
  }

  lemma StepsFrom(s: seq<byte>)
    requires s == [49] + ([50] + ([51] + ([52] + ([53] + ([54] + ([55] + ([56] + ([57] + []))))))))
    ensures StepBytes(Word(XF, XF, XF, XF), s) == Word(X2, X9, XB, X1)
  {
    OneToThree([52] + ([53] + ([54] + ([55] + ([56] + ([57] + []))))));
    FourToSix([55] + ([56] + ([57] + [])));
    SevenToNine([]);
  }

  lemma NineFigures(s: seq<byte>)
    requires s == [49, 50, 51, 52, 53, 54, 55, 56, 57]
    ensures s == [49] + ([50] + ([51] + ([52] + ([53] + ([54] + ([55] + ([56] + ([57] + []))))))))
  {
  }

  /** The customary check value of this polynomial and start value: the digits one to nine give 0x29B1. */
  lemma CheckValue(s: seq<byte>)
    requires s == [49, 50, 51, 52, 53, 54, 55, 56, 57]
    ensures Checksum(s) == 0x29B1
  {
    var start := Word(XF, XF, XF, XF);
    assert Register(start) == INITIAL;
    NineFigures(s);
    StepsFrom(s);
    StepsAreCrc(start, s);
    WordValue(Word(X2, X9, XB, X1));
  }
}
