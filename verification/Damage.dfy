/** What damage to a frame on a serial line its checksum notices: contents and checksum field together. */
module Damage {
  import opened Wire
  import opened Crc
  import opened Encoder
  import opened Decoder
  import opened Transport

  // ----- the checksum field as a register -----

  /** The field holds the register's bytes in the other order. */
  function Swap(b: seq<bool>): (r: seq<bool>)
    requires |b| == 16
    ensures |r| == 16
  {
    b[8..] + b[..8]
  }

  lemma {:induction false} BitsAppend(x: seq<byte>, y: seq<byte>)
    ensures Bits(x + y) == Bits(x) + Bits(y)
  {
    if x == [] {
      assert x + y == y;
    } else {
      BitsAppend(x[1..], y);
      assert (x + y)[1..] == x[1..] + y;
    }
  }

  lemma Half(n: nat, a: nat, b: nat, t: nat)
    requires n == a * (2 * t) + b
    ensures n / 2 == a * t + b / 2 && n % 2 == b % 2
  {
    assert n == 2 * (a * t) + b;
  }

  lemma {:induction false} BitsJoin(n: nat, a: nat, b: nat, j: nat, k: nat)
    requires b < Two(k) && n == a * Two(k) + b
    ensures ToBits(n, j + k) == ToBits(a, j) + ToBits(b, k)
    decreases k
  {
    if k == 0 {
      assert n == a;
    } else {
      Half(n, a, b, Two(k - 1));
      BitsJoin(n / 2, a, b / 2, j, k - 1);
      assert ToBits(n, j + k) == ToBits(n / 2, j + (k - 1)) + [n % 2 == 1];
    }
  }

  function Contents(f: seq<byte>): seq<byte>
    requires |f| >= SIZE_MIN + 2
  {
    f[1..|f| - 3]
  }

  function Field(f: seq<byte>): (s: seq<byte>)
    requires |f| >= SIZE_MIN + 2
    ensures |s| == 2
  {
    f[|f| - 3..|f| - 1]
  }

  /** All that can be damaged between the header byte and the terminator. */
  function Inside(f: seq<byte>): seq<byte>
    requires |f| >= SIZE_MIN + 2
  {
    f[1..|f| - 1]
  }

  lemma InsideParts(f: seq<byte>)
    requires |f| >= SIZE_MIN + 2
    ensures Inside(f) == Contents(f) + Field(f)
  {
  }

  lemma TwoLoaded(s: seq<byte>)
    requires |s| == 2
    ensures UnLE(s) == s[0] as int + 256 * s[1] as int
  {
    assert s[1..][1..] == [];
    assert UnLE(s[1..]) == s[1];
  }

  lemma TwoBits(s: seq<byte>)
    requires |s| == 2
    ensures Bits(s) == ToBits(s[0], 8) + ToBits(s[1], 8)
  {
    assert s[1..][1..] == [];
    assert Bits(s[1..]) == ToBits(s[1], 8) + [];
  }

  lemma TwoBytes(s: seq<byte>)
    requires |s| == 2
    ensures UnLE(s) < U16 && ToBits(UnLE(s), 16) == Swap(Bits(s))
  {
    TwoLoaded(s);
    TwoBits(s);
    TwoOf8();
    BitsJoin(UnLE(s), s[1], s[0], 8, 8);
  }

  /** A frame passes exactly when the register of its contents is its field. */
  lemma MatchBits(f: seq<byte>)
    requires |f| >= SIZE_MIN + 2
    ensures CrcMatches(f) <==> CrcFrom(INITIAL, Contents(f)) == Swap(Bits(Field(f)))
  {
    var r := CrcFrom(INITIAL, Contents(f));
    TwoBytes(Field(f));
    BackBits(r);
    TwoOf8();
    BitsBack(UnLE(Field(f)), 16);
    assert Load(f, |f| - 3, 2) == UnLE(Field(f));
  }

  // ----- any damage -----

  /** The bits that differ, the header byte and the terminator left out. */
  function Difference(f: seq<byte>, g: seq<byte>): (d: seq<bool>)
    requires |f| == |g| >= SIZE_MIN + 2
    ensures |d| == 8 * (|f| - 2)
  {
    Xor(Bits(Inside(f)), Bits(Inside(g)))
  }

  /** How many of them belong to the contents. */
  function ContentBits(f: seq<byte>): nat
    requires |f| >= SIZE_MIN + 2
  {
    8 * (|f| - 4)
  }

  lemma DifferenceParts(f: seq<byte>, g: seq<byte>)
    requires |f| == |g| >= SIZE_MIN + 2
    ensures Difference(f, g)[..ContentBits(f)] == Xor(Bits(Contents(f)), Bits(Contents(g)))
    ensures Difference(f, g)[ContentBits(f)..] == Xor(Bits(Field(f)), Bits(Field(g)))
  {
    InsideParts(f);
    InsideParts(g);
    BitsAppend(Contents(f), Field(f));
    BitsAppend(Contents(g), Field(g));
  }

  lemma XorCancels(a: seq<bool>, b: seq<bool>, x: seq<bool>, y: seq<bool>)
    requires |a| == |b| == |x| == |y| && a == x
    ensures b == y <==> Xor(a, b) == Xor(x, y)
  {
    if Xor(a, b) == Xor(x, y) {
      forall i | 0 <= i < |b| ensures b[i] == y[i] {
        assert Xor(a, b)[i] == Xor(x, y)[i];
      }
    }
  }

  lemma SilentIsZero(z: seq<bool>, n: nat)
    requires |z| == n && Silent(z)
    ensures z == Zero(n)
  {
  }

  lemma SwapXor(x: seq<bool>, y: seq<bool>)
    requires |x| == |y| == 16
    ensures Xor(Swap(x), Swap(y)) == Swap(Xor(x, y))
  {
  }

  /** A damaged frame passes exactly when its contents' damage, fed to an empty register, is its field's damage. */
  lemma DamagePasses(f: seq<byte>, g: seq<byte>)
    requires |f| == |g| >= SIZE_MIN + 2 && CrcMatches(f)
    ensures var d, c := Difference(f, g), ContentBits(f);
            CrcMatches(g) <==> Feed(Zero(16), d[..c]) == Swap(d[c..])
  {
    MatchBits(f);
    MatchBits(g);
    DifferenceParts(f, g);
    CrcLinear(Contents(f), Contents(g));
    SilentIsZero(Xor(INITIAL, INITIAL), 16);
    var x, y := Bits(Field(f)), Bits(Field(g));
    XorCancels(CrcFrom(INITIAL, Contents(f)), CrcFrom(INITIAL, Contents(g)), Swap(x), Swap(y));
    SwapXor(x, y);
  }

  // ----- bursts -----

  lemma Damaged(f: seq<byte>, g: seq<byte>)
    requires |f| == |g| >= SIZE_MIN + 2 && Inside(f) != Inside(g)
    ensures !Silent(Difference(f, g))
  {
    if Silent(Difference(f, g)) {
      assert Bits(Inside(f)) == Bits(Inside(g)) by {
        assert forall i :: 0 <= i < |Difference(f, g)| ==>
          Difference(f, g)[i] == (Bits(Inside(f))[i] != Bits(Inside(g))[i]);
      }
      BitsInjective(Inside(f), Inside(g));
    }
  }

  lemma FeedFromSilence(u: seq<bool>, w: seq<bool>)
    requires Silent(u)
    ensures Feed(Zero(16), u + w) == Feed(Zero(16), w)
  {
    FeedAppend(Zero(16), u, w);
    FeedSilence(Zero(16), u);
    SilentIsZero(Feed(Zero(16), u), 16);
  }

  lemma SwapSilent(b: seq<bool>)
    requires |b| == 16
    ensures Silent(Swap(b)) <==> Silent(b)
  {
    var t := Swap(b);
    forall i | 0 <= i < 16 ensures b[i] == t[if i < 8 then i + 8 else i - 8] {
    }
    forall i | 0 <= i < 16 ensures t[i] == b[if i < 8 then i + 8 else i - 8] {
    }
  }

  lemma BurstBefore(d: seq<bool>, c: nat, p: nat)
    requires |d| == c + 16 && Burst(d, p) && p + 16 <= c && !Silent(d)
    ensures Feed(Zero(16), d[..c]) != Swap(d[c..])
  {
    assert d == d[..c] + d[c..];
    assert Silent(d[c..]);
    SwapSilent(d[c..]);
    if Silent(Feed(Zero(16), d[..c])) {
      BurstDetected(Zero(16), d[..c], p);
    }
  }

  lemma BurstBehind(d: seq<bool>, c: nat, p: nat)
    requires |d| == c + 16 && Burst(d, p) && c <= p && !Silent(d)
    ensures Feed(Zero(16), d[..c]) != Swap(d[c..])
  {
    assert d == d[..c] + d[c..];
    assert Silent(d[..c]);
    FeedSilence(Zero(16), d[..c]);
    SwapSilent(d[c..]);
  }

  lemma BurstAcross(d: seq<bool>, c: nat, p: nat)
    requires p <= c <= |d| && Burst(d, p)
    ensures Feed(Zero(16), d[..c]) == Feed(Zero(16), d[p..c])
  {
    assert d[..c] == d[..p] + d[p..c];
    FeedFromSilence(d[..p], d[p..c]);
  }

  /**
   * Damage within 16 consecutive bits of contents and checksum field passes exactly when it reaches from the
   * one into the other, and what it does to the end of the contents feeds to what it does to the field.
   */
  lemma BurstPasses(f: seq<byte>, g: seq<byte>, p: nat)
    requires |f| == |g| >= SIZE_MIN + 2 && CrcMatches(f) && Inside(f) != Inside(g)
    requires Burst(Difference(f, g), p)
    ensures var d, c := Difference(f, g), ContentBits(f);
            CrcMatches(g) <==> p < c < p + 16 && Feed(Zero(16), d[p..c]) == Swap(d[c..])
  {
    var d, c := Difference(f, g), ContentBits(f);
    DamagePasses(f, g);
    Damaged(f, g);
    if p + 16 <= c {
      BurstBefore(d, c, p);
    } else if c <= p {
      BurstBehind(d, c, p);
    } else {
      BurstAcross(d, c, p);
    }
  }

  // ----- one that passes -----

  /** A byte with the bits of a mask flipped. */
  function Flipped(b: byte, mask: byte): (r: byte)
    ensures ToBits(r, 8) == Xor(ToBits(b, 8), ToBits(mask, 8))
  {
    var bits := Xor(ToBits(b, 8), ToBits(mask, 8));
    BackBits(bits);
    TwoOf8();
    FromBits(bits)
  }

  /** The lowest bit of the contents, and the generator in the checksum field: 13 consecutive bits. */
  function Struck(f: seq<byte>): (g: seq<byte>)
    requires |f| >= SIZE_MIN + 2
    ensures |g| == |f|
  {
    var n := |f|;
    f[..n - 4] + [Flipped(f[n - 4], 0x01), Flipped(f[n - 3], 0x21), Flipped(f[n - 2], 0x10)] + f[n - 1..]
  }

  lemma LastBits(x: seq<byte>, b: byte)
    ensures Bits(x + [b]) == Bits(x) + ToBits(b, 8)
  {
    BitsAppend(x, [b]);
    assert [b][1..] == [];
    assert Bits([b]) == ToBits(b, 8) + [];
  }

  lemma Masks()
    ensures ToBits(0x01, 8) == [false, false, false, false, false, false, false, true]
    ensures ToBits(0x21, 8) == [false, false, true, false, false, false, false, true]
    ensures ToBits(0x10, 8) == [false, false, false, true, false, false, false, false]
  {
    assert ToBits(0, 4) == [false, false, false, false];
    assert ToBits(1, 4) == [false, false, false, true];
    assert ToBits(2, 4) == [false, false, true, false];
    TwoOf4();
    BitsJoin(0x01, 0, 1, 4, 4);
    BitsJoin(0x21, 2, 1, 4, 4);
    BitsJoin(0x10, 1, 0, 4, 4);
  }

  lemma TwoOf4()
    ensures Two(4) == 16
  {
    assert Two(2) == 4;
  }

  lemma XorBack(a: seq<bool>, m: seq<bool>)
    requires |a| == |m|
    ensures Xor(a, Xor(a, m)) == m
  {
  }

  lemma XorPairs(a: seq<bool>, b: seq<bool>, c: seq<bool>, d: seq<bool>)
    requires |a| == |c| && |b| == |d|
    ensures Xor(a + b, c + d) == Xor(a, c) + Xor(b, d)
  {
  }

  lemma XorConcat(x: seq<bool>, a: seq<bool>, b: seq<bool>)
    requires |a| == |b|
    ensures Xor(x + a, x + b) == Zero(|x|) + Xor(a, b)
  {
    XorPairs(x, a, x, b);
    SilentIsZero(Xor(x, x), |x|);
  }

  lemma LastStruck(x: seq<byte>, b: byte, mask: byte)
    ensures Xor(Bits(x + [b]), Bits(x + [Flipped(b, mask)])) == Zero(8 * |x|) + ToBits(mask, 8)
  {
    var c := Flipped(b, mask);
    LastBits(x, b);
    LastBits(x, c);
    XorConcat(Bits(x), ToBits(b, 8), ToBits(c, 8));
    XorBack(ToBits(b, 8), ToBits(mask, 8));
  }

  /** The contents before and after: alike but for the last byte. */
  lemma StruckLast(f: seq<byte>) returns (x: seq<byte>)
    requires |f| >= SIZE_MIN + 2
    ensures |x| == |f| - 5
    ensures Contents(f) == x + [f[|f| - 4]] && Contents(Struck(f)) == x + [Flipped(f[|f| - 4], 0x01)]
  {
    x := f[1..|f| - 4];
  }

  lemma StruckContents(f: seq<byte>)
    requires |f| >= SIZE_MIN + 2
    ensures Xor(Bits(Contents(f)), Bits(Contents(Struck(f)))) == Zero(ContentBits(f) - 8) + ToBits(0x01, 8)
  {
    var x := StruckLast(f);
    LastStruck(x, f[|f| - 4], 0x01);
  }

  lemma FlippedBits(b: byte, mask: byte)
    ensures Xor(ToBits(b, 8), ToBits(Flipped(b, mask), 8)) == ToBits(mask, 8)
  {
    XorBack(ToBits(b, 8), ToBits(mask, 8));
  }

  lemma PairFlipped(a: byte, b: byte, c: byte, d: byte, x: byte, y: byte)
    requires c == Flipped(a, x) && d == Flipped(b, y)
    ensures Xor(Bits([a, b]), Bits([c, d])) == ToBits(x, 8) + ToBits(y, 8)
  {
    TwoBits([a, b]);
    TwoBits([c, d]);
    XorPairs(ToBits(a, 8), ToBits(b, 8), ToBits(c, 8), ToBits(d, 8));
    FlippedBits(a, x);
    FlippedBits(b, y);
  }

  lemma StruckField(f: seq<byte>)
    requires |f| >= SIZE_MIN + 2
    ensures Xor(Bits(Field(f)), Bits(Field(Struck(f)))) == ToBits(0x21, 8) + ToBits(0x10, 8)
  {
    var g, n := Struck(f), |f|;
    assert Field(f) == [f[n - 3], f[n - 2]] && Field(g) == [g[n - 3], g[n - 2]];
    PairFlipped(f[n - 3], f[n - 2], g[n - 3], g[n - 2], 0x21, 0x10);
  }

  lemma LowBitFeeds()
    ensures Feed(Zero(16), ToBits(0x01, 8)) == GENERATOR
  {
    Masks();
    assert ToBits(0x01, 8) == Zero(7) + [true];
    FeedFromSilence(Zero(7), [true]);
    OneBit();
  }

  lemma OneBit()
    ensures Feed(Zero(16), [true]) == GENERATOR
  {
    var r := Zero(16)[0 := true];
    assert [true][1..] == [];
    assert Left(r) == Zero(16);
  }

  lemma StruckFeeds(d: seq<bool>, c: nat)
    requires |d| == c + 16 && c >= 8 && d[..c] == Zero(c - 8) + ToBits(0x01, 8)
    requires d[c..] == ToBits(0x21, 8) + ToBits(0x10, 8)
    ensures Feed(Zero(16), d[..c]) == Swap(d[c..])
  {
    FeedFromSilence(Zero(c - 8), ToBits(0x01, 8));
    LowBitFeeds();
    MaskBytes();
    SwapPair(ToBits(0x21, 8), ToBits(0x10, 8));
  }

  lemma SwapPair(a: seq<bool>, b: seq<bool>)
    requires |a| == 8 && |b| == 8
    ensures Swap(a + b) == b + a
  {
  }

  lemma MaskBytes()
    ensures ToBits(0x10, 8) + ToBits(0x21, 8) == GENERATOR
  {
    Masks();
  }

  /** All damage lies within k consecutive bits. */
  predicate Span(d: seq<bool>, p: nat, k: nat)
  {
    forall i :: 0 <= i < |d| && d[i] ==> p <= i < p + k
  }

  lemma StruckSpan(d: seq<bool>, c: nat)
    requires |d| == c + 16 && c >= 8 && d[..c] == Zero(c - 8) + ToBits(0x01, 8)
    requires d[c..] == ToBits(0x21, 8) + ToBits(0x10, 8)
    ensures Span(d, c - 1, 13)
    ensures d[..c][c - 1]
  {
    Masks();
    var x, y := d[..c], d[c..];
    forall i | 0 <= i < |d| && d[i] ensures c - 1 <= i < c + 12 {
      assert d[i] == if i < c then x[i] else y[i - c];
    }
  }

  lemma StruckDifference(f: seq<byte>)
    requires |f| >= SIZE_MIN + 2
    ensures var d, c := Difference(f, Struck(f)), ContentBits(f);
            d[..c] == Zero(c - 8) + ToBits(0x01, 8) && d[c..] == ToBits(0x21, 8) + ToBits(0x10, 8)
  {
    DifferenceParts(f, Struck(f));
    StruckContents(f);
    StruckField(f);
  }

  lemma ContentsDiffer(f: seq<byte>, g: seq<byte>, i: nat)
    requires |f| == |g| >= SIZE_MIN + 2 && i < ContentBits(f) && Difference(f, g)[..ContentBits(f)][i]
    ensures Contents(f) != Contents(g)
  {
    DifferenceParts(f, g);
    assert Xor(Bits(Contents(f)), Bits(Contents(g)))[i];
  }

  /** Every frame has a neighbour, 13 bits away at most, that is damaged in its contents and yet passes. */
  lemma StruckPasses(f: seq<byte>)
    requires |f| >= SIZE_MIN + 2 && CrcMatches(f)
    ensures var g, p := Struck(f), ContentBits(f) - 1;
            CrcMatches(g) && Contents(g) != Contents(f)
            && Span(Difference(f, g), p, 13)
  {
    var g, c := Struck(f), ContentBits(f);
    var d := Difference(f, g);
    StruckDifference(f);
    StruckFeeds(d, c);
    StruckSpan(d, c);
    DamagePasses(f, g);
    ContentsDiffer(f, g, c - 1);
  }
}
