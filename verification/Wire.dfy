/** Bytes, little-endian integers and status codes shared by the b-CAP modules. */
module Wire {

  type byte = x: int | 0 <= x < 256

  const U16: nat := 0x1_0000
  const U32: nat := 0x1_0000_0000

  datatype Link = TCP | UDP | COM

  /** The HRESULT values the modelled functions distinguish. */
  datatype Status =
    | S_OK
    | E_INVALIDARG
    | E_INVALIDPACKET
    | E_OUTOFMEMORY
    | E_TOO_MUCH_DATA
    | E_TIMEOUT
    // Not statuses: the code goes on, reading or storing outside a buffer, and what follows is undefined.
    | OVERREAD
    | OVERWRITE

  /** The first position of x, or the length where it does not occur. */
  function IndexOf<T(==)>(s: seq<T>, x: T): (i: nat)
    ensures i <= |s| && (i < |s| ==> s[i] == x)
    ensures forall j :: 0 <= j < i ==> s[j] != x
  {
    if s == [] || s[0] == x then 0 else 1 + IndexOf(s[1..], x)
  }

  function Zeros(n: nat): (s: seq<byte>)
    ensures |s| == n
  {
    seq(n, _ => 0)
  }

  function Pow256(k: nat): (p: nat)
    ensures p >= 1
  {
    if k == 0 then 1 else 256 * Pow256(k - 1)
  }

  /** n without its k low bytes. */
  function Shifted(n: nat, k: nat): nat
  {
    if k == 0 then n else Shifted(n, k - 1) / 256
  }

  /** The k low bytes of n, least significant first: what memcpy_le stores. */
  function LE(n: nat, k: nat): (s: seq<byte>)
    ensures |s| == k
  {
    seq(k, i requires 0 <= i < k => Shifted(n, i) % 256)
  }

  lemma {:induction false} ShiftedTail(n: nat, k: nat)
    ensures Shifted(n / 256, k) == Shifted(n, k + 1)
  {
    if k > 0 {
      ShiftedTail(n, k - 1);
    }
  }

  lemma LETail(n: nat, k: nat)
    requires k > 0
    ensures LE(n, k) == [n % 256] + LE(n / 256, k - 1)
  {
    var tail := LE(n / 256, k - 1);
    forall i | 0 <= i < k - 1 ensures tail[i] == Shifted(n, i + 1) % 256 {
      ShiftedTail(n, i);
    }
  }

  /** The value memcpy_le loads from s. */
  function UnLE(s: seq<byte>): nat
  {
    if s == [] then 0 else s[0] + 256 * UnLE(s[1..])
  }

  lemma {:induction false} LoadStored(n: nat, k: nat)
    requires n < Pow256(k)
    ensures UnLE(LE(n, k)) == n
  {
    if k > 0 {
      LETail(n, k);
      LoadStored(n / 256, k - 1);
      assert LE(n, k)[1..] == LE(n / 256, k - 1);
    }
  }

  lemma {:induction false} LoadBound(s: seq<byte>)
    ensures UnLE(s) < Pow256(|s|)
  {
    if s != [] {
      LoadBound(s[1..]);
    }
  }

  lemma {:induction false} StoreLoaded(s: seq<byte>)
    ensures LE(UnLE(s), |s|) == s
  {
    if s != [] {
      var tail, n := s[1..], UnLE(s);
      StoreLoaded(tail);
      LowByte(s[0], UnLE(tail));
      LETail(n, |s|);
      assert s == [s[0]] + tail;
    }
  }

  lemma LowByte(b: byte, rest: nat)
    ensures (b + 256 * rest) % 256 == b && (b + 256 * rest) / 256 == rest
  {
  }

  lemma PowValues()
    ensures Pow256(0) == 1 && Pow256(1) == 256 && Pow256(2) == U16
    ensures Pow256(4) == U32 && Pow256(8) == U32 * U32
  {
    assert Pow256(1) == 256 * Pow256(0);
    assert Pow256(2) == 256 * Pow256(1);
    assert Pow256(3) == 256 * Pow256(2);
    assert Pow256(4) == 256 * Pow256(3);
    assert Pow256(5) == 256 * Pow256(4);
    assert Pow256(6) == 256 * Pow256(5);
    assert Pow256(7) == 256 * Pow256(6);
  }

  /** A signed 32-bit value as the unsigned pattern that is stored, and back. */
  function ToU32(x: int): (n: nat)
    requires -0x8000_0000 <= x < 0x8000_0000
    ensures n < U32
  {
    if x < 0 then x + U32 else x
  }

  function FromU32(n: nat): (x: int)
    requires n < U32
    ensures -0x8000_0000 <= x < 0x8000_0000 && ToU32(x) == n
  {
    if n < 0x8000_0000 then n else n - U32
  }

  /** p stands at position off of s. */
  ghost predicate At(s: seq<byte>, off: nat, p: seq<byte>)
  {
    off + |p| <= |s| && s[off..off + |p|] == p
  }

  lemma AtSplit(s: seq<byte>, off: nat, p: seq<byte>, q: seq<byte>)
    requires At(s, off, p + q)
    ensures At(s, off, p) && At(s, off + |p|, q)
  {
    assert p == (p + q)[..|p|] == s[off..off + |p|];
    assert q == (p + q)[|p|..] == s[off + |p|..off + |p| + |q|];
  }

  lemma SliceOfSlice(t: seq<byte>, a: nat, b: nat, i: nat, j: nat)
    requires a <= b <= |t| && i <= j <= b - a
    ensures t[a..b][i..j] == t[a + i..a + j]
  {
    var x, y := t[a..b][i..j], t[a + i..a + j];
    assert forall k :: 0 <= k < j - i ==> x[k] == t[a + i + k] == y[k];
  }

  /** s with p written over the bytes from off on. */
  function Splice(s: seq<byte>, off: nat, p: seq<byte>): (r: seq<byte>)
    requires off + |p| <= |s|
    ensures |r| == |s|
  {
    s[..off] + p + s[off + |p|..]
  }

  lemma SpliceAppend(s: seq<byte>, off: nat, p: seq<byte>, q: seq<byte>)
    requires off + |p| + |q| <= |s|
    ensures Splice(Splice(s, off, p), off + |p|, q) == Splice(s, off, p + q)
  {
  }

  /** Writing q after a gap and then filling the gap with p, as the length field is filled in. */
  lemma SplicePrepend(s: seq<byte>, off: nat, p: seq<byte>, q: seq<byte>)
    requires off + |p| + |q| <= |s|
    ensures Splice(Splice(s, off + |p|, q), off, p) == Splice(s, off, p + q)
  {
  }

  // ----- bounds tests in 32 bits -----

  /** 32-bit unsigned addition. */
  function Add32(a: nat, b: nat): nat
  {
    (a + b) % U32
  }

  /** Size bytes at off end behind len, and yet pass the test against it: the sum has wrapped. */
  predicate Slips(off: nat, size: nat, len: nat)
  {
    Add32(off, size) <= len < off + size
  }

  /** The first of n fields of this size that does not fit below len slips. */
  predicate FieldSlips(n: nat, size: nat, off: nat, len: nat)
  {
    n > 0 && if off + size <= len then FieldSlips(n - 1, size, off + size, len) else Slips(off, size, len)
  }

  lemma OneStride(n: nat, size: nat)
    ensures (n + 1) * size == size + n * size
  {
  }

  lemma {:induction false} FittingFields(n: nat, size: nat, off: nat, len: nat)
    requires off + n * size <= len
    ensures !FieldSlips(n, size, off, len)
  {
    if n > 0 {
      OneStride(n - 1, size);
      FittingFields(n - 1, size, off + size, len);
    }
  }

  /** The field behind k fields that fit decides. */
  lemma {:induction false} FieldSlipsAt(n: nat, size: nat, off: nat, len: nat, k: nat, before: nat)
    requires k < n && before == k * size && off + before <= len && Slips(off + before, size, len)
    ensures FieldSlips(n, size, off, len)
    decreases k
  {
    if k > 0 {
      OneStride(k - 1, size);
      var rest := (k - 1) * size;
      FieldSlipsAt(n - 1, size, off + size, len, k - 1, rest);
    }
  }

  // ----- clocks -----

  /** calc_time_diff on 32-bit milliseconds. Across a wrap it subtracts the wrong way round. */
  function TimeDiff(start: nat, end: nat): (d: nat)
    requires start < U32 && end < U32
    ensures d < U32
  {
    if end >= start then end - start else (U32 - 1 - end + start) % U32
  }

  /** It is the true difference of two times less than 2^32 ms apart exactly when the clock has not wrapped between. */
  lemma TimeDiffExact(start: nat, end: nat)
    requires start <= end < start + U32
    ensures TimeDiff(start % U32, end % U32) == end - start <==> start / U32 == end / U32
    ensures start / U32 != end / U32 ==> TimeDiff(start % U32, end % U32) == U32 - 1 - (end - start)
  {
  }

  /**
   * The test "more than limit ms ago" says so exactly when it is so, unless the clock has wrapped since: then it
   * says so of every time but the last limit ms of a whole turn.
   */
  lemma LateExactly(start: nat, end: nat, limit: nat)
    requires start <= end < start + U32 && limit < U32 / 2
    ensures TimeDiff(start % U32, end % U32) > limit
      <==> if start / U32 == end / U32 then end - start > limit else end - start < U32 - 1 - limit
    ensures (TimeDiff(start % U32, end % U32) > limit <==> end - start > limit)
      <==> start / U32 == end / U32 || limit < end - start < U32 - 1 - limit
  {
    TimeDiffExact(start, end);
  }
}
