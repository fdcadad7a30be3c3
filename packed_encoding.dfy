/** The encoder of packed integers: the canonical inverse of the packed readers.
    A value is a presence bit (0 alone for zero), for signed values a sign bit,
    the 5-bit leading-zero count of the magnitude and then its significant bits,
    least significant first. The debug bit in front of a packed field is not
    part of the encoding. */
module PackedEncoding {
  import opened Wrappers
  import opened BitMath
  import opened StreamFormat

  /** The magnitude `Math.Abs` computes. */
  function Magnitude(v: int): nat
  {
    if v < 0 then -v else v
  }

  /** The canonical encoding of an unsigned value below 2^32. */
  function U32Bits(v: nat): (r: seq<Bit>)
    requires v < TwoTo32
  {
    if v == 0 then [0]
    else
      BitLengthFits(v, 32);
      Pow2Of32();
      [1] + LowBits(32 - BitLength(v), 5) + LowBits(v, BitLength(v))
  }

  /** The canonical encoding of an `int` whose magnitude fits in an `int`. */
  function I32Bits(v: int): (r: seq<Bit>)
    requires IsInt32(v) && v != MinInt32
  {
    if v == 0 then [0]
    else
      var m := Magnitude(v);
      BitLengthFits(m, 32);
      Pow2Of32();
      [1, if v < 0 then 1 else 0] + LowBits(32 - BitLength(m), 5) + LowBits(m, BitLength(m))
  }

  /** The leading-zero count of a nonzero 32-bit value, scanning from bit 31 down. */
  method CountLeadingZeros(v: nat) returns (lzc: nat)
    requires 0 < v < TwoTo32
    ensures lzc < 32 && lzc == 32 - BitLength(v)
  {
    lzc := 0;
    var b := 31;
    while b >= 0
      invariant -1 <= b <= 31 && lzc == 31 - b
      invariant forall j :: b < j < 32 ==> BitOf(v, j) == 0
    {
      if BitOf(v, b) == 1 {  // (v & (1 << b)) != 0
        break;
      }
      lzc := lzc + 1;
      b := b - 1;
    }
    TopBitIndex(v, b);
  }

  /** `EncodeU32`. */
  method EncodeU32(value: nat) returns (bits: seq<Bit>)
    requires value < TwoTo32
    ensures bits == U32Bits(value)
  {
    if value == 0 {
      return [0];
    }
    bits := [1];
    var lzc := CountLeadingZeros(value);
    var i := 0;
    while i < 5
      invariant 0 <= i <= 5 && bits == [1] + LowBits(lzc, i)
    {
      LowBitsExtend(lzc, i);
      bits := bits + [BitOf(lzc, i)];  // (lzc >> i) & 1
      i := i + 1;
    }
    var vb := 32 - lzc;
    i := 0;
    while i < vb
      invariant 0 <= i <= vb && bits == [1] + LowBits(lzc, 5) + LowBits(value, i)
    {
      LowBitsExtend(value, i);
      bits := bits + [BitOf(value, i)];  // (value >> i) & 1
      i := i + 1;
    }
  }

  /** What `EncodeI32` returns. `Math.Abs(int.MinValue)` overflows, so that
      value has no encoding. */
  function EncodeResult(v: Int32): Result<seq<Bit>, Error>
  {
    if v == MinInt32 then Failure(AbsOverflow) else Success(I32Bits(v))
  }

  /** `EncodeI32`. */
  method EncodeI32(value: int) returns (r: Result<seq<Bit>, Error>)
    requires IsInt32(value)
    ensures r == if value == MinInt32 then Failure(AbsOverflow) else Success(I32Bits(value))
  {
    if value == 0 {
      return Success([0]);
    }
    var bits: seq<Bit> := [1, if value < 0 then 1 else 0];
    if value == MinInt32 {
      return Failure(AbsOverflow);
    }
    var magnitude := Magnitude(value);
    var lzc := CountLeadingZeros(magnitude);
    var i := 0;
    while i < 5
      invariant 0 <= i <= 5 && bits == [1, if value < 0 then 1 else 0] + LowBits(lzc, i)
    {
      LowBitsExtend(lzc, i);
      bits := bits + [BitOf(lzc, i)];
      i := i + 1;
    }
    var vb := 32 - lzc;
    i := 0;
    while i < vb
      invariant 0 <= i <= vb
      invariant bits == [1, if value < 0 then 1 else 0] + LowBits(lzc, 5) + LowBits(magnitude, i)
    {
      LowBitsExtend(magnitude, i);
      bits := bits + [BitOf(magnitude, i)];
      i := i + 1;
    }
    r := Success(bits);
  }

  // ---------------------------------------------------------------------------
  // Lemmas

  /** Where the downward scan stops: the highest set bit is bit `BitLength(v) - 1`. */
  lemma TopBitIndex(v: nat, b: int)
    requires 0 < v < TwoTo32 && -1 <= b <= 31
    requires forall j :: b < j < 32 ==> BitOf(v, j) == 0
    requires b >= 0 ==> BitOf(v, b) == 1
    ensures b >= 0 && BitLength(v) == b + 1
  {
    BitLengthFits(v, 32);
    Pow2Of32();
    TopBitSet(v);
    if b >= 0 && BitLength(v) <= b {
      BitAboveLength(v, b);
    }
  }

  /** Zero encodes to the single bit 0, signed or unsigned. */
  lemma EncodeZero()
    ensures U32Bits(0) == [0] && I32Bits(0) == [0]
  {
  }

  /** The number of bits the encoding of an unsigned value takes. */
  function U32Width(v: nat): nat
  {
    if v == 0 then 1 else 6 + BitLength(v)
  }

  /** The number of bits the encoding of a signed value takes. */
  function I32Width(v: int): nat
  {
    if v == 0 then 1 else 7 + BitLength(Magnitude(v))
  }

  /** A nonzero unsigned value: presence bit 1, a 5-bit leading-zero count and the
      `BitLength(v)` significant bits, `U32Width(v)` bits in all. */
  lemma U32Layout(v: nat)
    requires 0 < v < TwoTo32
    ensures var n := BitLength(v);
      0 < n <= 32 && |U32Bits(v)| == U32Width(v) &&
      U32Bits(v) == [1] + LowBits(32 - n, 5) + LowBits(v, n)
  {
    BitLengthFits(v, 32);
    Pow2Of32();
    TopBitSet(v);
  }

  /** The unsigned encoding is canonical: its count field holds the true
      leading-zero count, at most 31, and its last bit is 1. */
  lemma U32Canonical(v: nat)
    requires 0 < v < TwoTo32
    ensures var r := U32Bits(v);
      |r| > 6 && Value(r[1..6]) == 32 - BitLength(v) <= 31 && r[|r| - 1] == 1
  {
    U32Layout(v);
    CanonicalParts([1], v);
  }

  /** A nonzero signed value: presence bit 1, the sign bit, a 5-bit leading-zero
      count and the `BitLength(|v|)` significant bits, `I32Width(v)` bits in all. */
  lemma I32Layout(v: int)
    requires IsInt32(v) && v != MinInt32 && v != 0
    ensures var m := Magnitude(v);
      var n := BitLength(m);
      0 < n <= 31 && |I32Bits(v)| == I32Width(v) &&
      I32Bits(v) == [1, if v < 0 then 1 else 0] + LowBits(32 - n, 5) + LowBits(m, n)
  {
    var m := Magnitude(v);
    BitLengthFits(m, 31);
    assert Pow2(32) == 2 * Pow2(31);
    Pow2Of32();
    TopBitSet(m);
  }

  /** The signed encoding is canonical: its count field holds the true
      leading-zero count of the magnitude, at most 31, and its last bit is 1. */
  lemma I32Canonical(v: int)
    requires IsInt32(v) && v != MinInt32 && v != 0
    ensures var r := I32Bits(v);
      |r| > 7 && Value(r[2..7]) == 32 - BitLength(Magnitude(v)) <= 31 && r[|r| - 1] == 1
  {
    I32Layout(v);
    CanonicalParts([1, if v < 0 then 1 else 0], Magnitude(v));
  }

  /** After any prefix, a count field holding `32 - BitLength(m)` and the
      significant bits of `m` read back as the true leading-zero count and end in 1. */
  lemma CanonicalParts(x: seq<Bit>, m: nat)
    requires 0 < m < TwoTo32
    ensures 0 < BitLength(m) <= 32
    ensures var n := BitLength(m);
      var r := x + LowBits(32 - n, 5) + LowBits(m, n);
      |r| == |x| + 5 + n && Value(r[|x|..|x| + 5]) == 32 - n <= 31 && r[|r| - 1] == 1
  {
    var n := BitLength(m);
    SignificantBits(m);
    CountField(n);
    var count := LowBits(32 - n, 5);
    var low := LowBits(m, n);
    Parts(x, count, low);
  }

  /** A nonzero 32-bit value has between 1 and 32 significant bits, the top one set. */
  lemma SignificantBits(m: nat)
    requires 0 < m < TwoTo32
    ensures 0 < BitLength(m) <= 32 && LowBits(m, BitLength(m))[BitLength(m) - 1] == 1
  {
    BitLengthFits(m, 32);
    Pow2Of32();
    TopBitSet(m);
    LastLowBit(m, BitLength(m));
  }

  /** The 5-bit count field of `n` significant bits reads back as `32 - n`. */
  lemma CountField(n: nat)
    requires 0 < n <= 32
    ensures Value(LowBits(32 - n, 5)) == 32 - n
  {
    assert Pow2(5) == 32;
    ValueOfLowBits(32 - n, 5);
  }

  /** The last of the low `n` bits of `v` is bit `n - 1` of `v`. */
  lemma LastLowBit(v: nat, n: nat)
    requires n > 0
    ensures LowBits(v, n)[n - 1] == BitOf(v, n - 1)
  {
    LowBitsExtend(v, n - 1);
  }

  /** The three parts of a concatenation, recovered by slicing. */
  lemma Parts(a: seq<Bit>, b: seq<Bit>, c: seq<Bit>)
    ensures var r := a + b + c;
      r[..|a|] == a && r[|a|..|a| + |b|] == b && r[|a| + |b|..] == c &&
      (|c| > 0 ==> r[|r| - 1] == c[|c| - 1])
  {
    var r := a + b + c;
    assert r[..|a|] == a;
    assert r[|a|..|a| + |b|] == b;
    assert r[|a| + |b|..] == c;
  }

  /** A window of the stream holding `a + b + c` holds each part in turn. */
  lemma PlacedParts(s: seq<Bit>, q: int, a: seq<Bit>, b: seq<Bit>, c: seq<Bit>)
    requires 0 <= q && q + |a + b + c| <= |s| && s[q..q + |a + b + c|] == a + b + c
    ensures s[q..q + |a|] == a && s[q + |a|..q + |a| + |b|] == b
    ensures s[q + |a| + |b|..q + |a| + |b| + |c|] == c
  {
    Parts(a, b, c);
    Window(s, q, a + b + c, 0, |a|);
    Window(s, q, a + b + c, |a|, |a| + |b|);
    Window(s, q, a + b + c, |a| + |b|, |a + b + c|);
  }

  /** `EncodeI32(v)` and `EncodeI32(-v)` differ only in the sign bit. */
  lemma NegationFlipsSign(v: int)
    requires IsInt32(v) && v != MinInt32 && v != 0
    ensures |I32Bits(-v)| == |I32Bits(v)|
    ensures I32Bits(-v) == I32Bits(v)[1 := 1 - I32Bits(v)[1]]
  {
  }

  /** A part of a window of the stream is the same part of what the window holds. */
  lemma Window(s: seq<Bit>, a: int, w: seq<Bit>, i: int, j: int)
    requires 0 <= a && a + |w| <= |s| && s[a..a + |w|] == w
    requires 0 <= i <= j <= |w|
    ensures s[a + i..a + j] == w[i..j]
  {
    forall k | 0 <= k < j - i
      ensures s[a + i..a + j][k] == w[i..j][k]
    {
      assert w[i + k] == s[a..a + |w|][i + k];
    }
  }

  /** `n` bits holding the low bits of `x` read back as `x`, unsigned or as an `int`. */
  lemma FieldBits(s: seq<Bit>, a: int, n: nat, x: nat)
    requires 0 <= a && a + n <= |s| && x < Pow2(n)
    requires s[a..a + n] == LowBits(x, n)
    ensures BitsAt(s, a, n) == Some(Read(x, a + n))
    ensures n < 32 ==> IntBitsAt(s, a, n) == Some(Read(x as int, a + n))
  {
    ValueOfLowBits(x, n);
    if n < 32 {
      SmallInt32Of(s[a..a + n]);
    }
  }

  /** An absent packed value is two bits and reads as zero, signed or unsigned. */
  lemma ZeroField(s: seq<Bit>, p: int)
    requires 0 <= p && p + 2 <= |s| && s[p + 1] == 0
    ensures U32PackedAt(s, p, NoOid) == Some(Read(0, p + 2))
    ensures I32PackedAt(s, p, NoOid) == Some(Read(0, p + 2))
  {
  }

  /** The stream holds the fields of the unsigned `v` behind the debug bit at `p`. */
  ghost predicate U32FieldsAt(s: seq<Bit>, p: int, v: nat)
  {
    0 <= p &&
    if v == 0 then p + 2 <= |s| && s[p + 1] == 0
    else
      var n := BitLength(v);
      0 < n <= 32 && v < Pow2(n) && p + 7 + n <= |s| && s[p + 1] == 1 &&
      s[p + 2..p + 7] == LowBits(32 - n, 5) && s[p + 7..p + 7 + n] == LowBits(v, n)
  }

  /** The stream holds the fields of the signed `v` behind the debug bit at `p`. */
  ghost predicate I32FieldsAt(s: seq<Bit>, p: int, v: int)
  {
    0 <= p &&
    if v == 0 then p + 2 <= |s| && s[p + 1] == 0
    else
      var m := Magnitude(v);
      var n := BitLength(m);
      0 < n < 32 && m < Pow2(n) && p + 8 + n <= |s| && s[p + 1] == 1 && s[p + 2] == (if v < 0 then 1 else 0) &&
      s[p + 3..p + 8] == LowBits(32 - n, 5) && s[p + 8..p + 8 + n] == LowBits(m, n)
  }

  /** The encoding of an unsigned `v`, placed behind the debug bit at `p`, lays out its fields. */
  lemma U32Placed(s: seq<Bit>, p: int, v: nat)
    requires v < TwoTo32
    requires 0 <= p && p + 1 + |U32Bits(v)| <= |s|
    requires s[p + 1..p + 1 + |U32Bits(v)|] == U32Bits(v)
    ensures |U32Bits(v)| == U32Width(v) && U32FieldsAt(s, p, v)
  {
    if v == 0 {
      assert s[p + 1] == s[p + 1..p + 2][0];
    } else {
      U32Layout(v);
      var n := BitLength(v);
      BitLengthBound(v);
      PlacedParts(s, p + 1, [1], LowBits(32 - n, 5), LowBits(v, n));
      assert s[p + 1] == s[p + 1..p + 2][0];
    }
  }

  /** The fields of an unsigned value read back as it. */
  lemma U32FieldsRead(s: seq<Bit>, p: int, v: nat)
    requires U32FieldsAt(s, p, v)
    ensures U32PackedAt(s, p, NoOid) == Some(Read(v, p + 1 + U32Width(v)))
  {
    if v == 0 {
      ZeroField(s, p);
    } else {
      U32Windows(s, p, v, BitLength(v));
    }
  }

  /** The count and value windows of a present unsigned value, read back. */
  lemma U32WindowBits(s: seq<Bit>, p: int, v: nat, n: nat)
    requires 0 < n <= 32 && v < Pow2(n)
    requires 0 <= p && p + 7 + n <= |s|
    requires s[p + 2..p + 7] == LowBits(32 - n, 5) && s[p + 7..p + 7 + n] == LowBits(v, n)
    ensures IntBitsAt(s, p + 2, 5) == Some(Read(32 - n, p + 7))
    ensures BitsAt(s, p + 7, n) == Some(Read(v, p + 7 + n))
  {
    assert Pow2(5) == 32;
    FieldBits(s, p + 2, 5, 32 - n);
    FieldBits(s, p + 7, n, v);
  }

  /** The fields of a present unsigned value, read back. */
  lemma U32Windows(s: seq<Bit>, p: int, v: nat, n: nat)
    requires 0 < n <= 32 && v < Pow2(n)
    requires 0 <= p && p + 7 + n <= |s| && s[p + 1] == 1
    requires s[p + 2..p + 7] == LowBits(32 - n, 5) && s[p + 7..p + 7 + n] == LowBits(v, n)
    ensures U32PackedAt(s, p, NoOid) == Some(Read(v, p + 7 + n))
  {
    U32WindowBits(s, p, v, n);
    U32PackedFrom(s, p, 32 - n, n, v);
  }

  /** Round trip: behind any debug bit, the encoding of `v` reads back as `v`
      with `ReadU32Packed(-1)`, which stops right after it. */
  lemma U32RoundTrip(s: seq<Bit>, p: int, v: nat)
    requires v < TwoTo32
    requires 0 <= p && p + 1 + |U32Bits(v)| <= |s|
    requires s[p + 1..p + 1 + |U32Bits(v)|] == U32Bits(v)
    ensures U32PackedAt(s, p, NoOid) == Some(Read(v, p + 1 + |U32Bits(v)|))
  {
    U32Placed(s, p, v);
    U32FieldsRead(s, p, v);
  }

  /** A present signed value whose magnitude reads back as `m` below 2^31. */
  lemma I32Fields(s: seq<Bit>, p: int, sign: Bit, m: int, n: nat)
    requires 0 < n < 32 && 0 <= m < TwoTo31
    requires 0 <= p && p + 8 + n <= |s|
    requires s[p + 1] == 1 && s[p + 2] == sign
    requires IntBitsAt(s, p + 3, 5) == Some(Read(32 - n, p + 8))
    requires IntBitsAt(s, p + 8, n) == Some(Read(m, p + 8 + n))
    ensures I32PackedAt(s, p, NoOid) == Some(Read(if sign == 1 then -m else m, p + 8 + n))
  {
    assert DebugSkipAt(s, p, NoOid) == Some(p + 1);
    var lzc: int := 32 - n;
    I32PackedFrom(s, p, NoOid, p + 1, Read(sign, p + 3), Read(lzc, p + 8), n, Read(m, p + 8 + n));
    Wrap32Id(-m);
  }

  /** The count and magnitude windows of a present signed value, read as `int`s. */
  lemma I32WindowBits(s: seq<Bit>, p: int, m: nat, n: nat)
    requires 0 < n < 32 && m < Pow2(n)
    requires 0 <= p && p + 8 + n <= |s|
    requires s[p + 3..p + 8] == LowBits(32 - n, 5) && s[p + 8..p + 8 + n] == LowBits(m, n)
    ensures m < TwoTo31
    ensures IntBitsAt(s, p + 3, 5) == Some(Read(32 - n, p + 8))
    ensures IntBitsAt(s, p + 8, n) == Some(Read(m as int, p + 8 + n))
  {
    assert Pow2(5) == 32;
    FieldBits(s, p + 3, 5, 32 - n);
    FieldBits(s, p + 8, n, m);
    PowMono(n, 31);
    Pow2Of31();
  }

  /** The fields of a present signed value `v`, read back. */
  lemma I32Windows(s: seq<Bit>, p: int, v: int, sign: Bit, m: nat, n: nat)
    requires 0 < n < 32 && m < Pow2(n) && v == if sign == 1 then -(m as int) else m
    requires 0 <= p && p + 8 + n <= |s|
    requires s[p + 1] == 1 && s[p + 2] == sign
    requires s[p + 3..p + 8] == LowBits(32 - n, 5) && s[p + 8..p + 8 + n] == LowBits(m, n)
    ensures I32PackedAt(s, p, NoOid) == Some(Read(v, p + 8 + n))
  {
    I32WindowBits(s, p, m, n);
    I32Fields(s, p, sign, m, n);
  }

  /** The encoding of a signed `v`, placed behind the debug bit at `p`, lays out its fields. */
  lemma I32Placed(s: seq<Bit>, p: int, v: int)
    requires IsInt32(v) && v != MinInt32
    requires 0 <= p && p + 1 + |I32Bits(v)| <= |s|
    requires s[p + 1..p + 1 + |I32Bits(v)|] == I32Bits(v)
    ensures |I32Bits(v)| == I32Width(v) && I32FieldsAt(s, p, v)
  {
    if v == 0 {
      assert s[p + 1] == s[p + 1..p + 2][0];
    } else {
      I32Layout(v);
      var m := Magnitude(v);
      var n := BitLength(m);
      BitLengthBound(m);
      PlacedParts(s, p + 1, [1, if v < 0 then 1 else 0], LowBits(32 - n, 5), LowBits(m, n));
      assert s[p + 1] == s[p + 1..p + 3][0] && s[p + 2] == s[p + 1..p + 3][1];
    }
  }

  /** The fields of a signed value read back as it. */
  lemma I32FieldsRead(s: seq<Bit>, p: int, v: int)
    requires IsInt32(v) && I32FieldsAt(s, p, v)
    ensures I32PackedAt(s, p, NoOid) == Some(Read(v, p + 1 + I32Width(v)))
  {
    if v == 0 {
      ZeroField(s, p);
    } else {
      var m := Magnitude(v);
      I32Windows(s, p, v, if v < 0 then 1 else 0, m, BitLength(m));
    }
  }

  /** Round trip: behind any debug bit, the encoding of `v` reads back as `v`
      with `ReadI32Packed(-1)`, which stops right after it. */
  lemma I32RoundTrip(s: seq<Bit>, p: int, v: int)
    requires IsInt32(v) && v != MinInt32
    requires 0 <= p && p + 1 + |I32Bits(v)| <= |s|
    requires s[p + 1..p + 1 + |I32Bits(v)|] == I32Bits(v)
    ensures I32PackedAt(s, p, NoOid) == Some(Read(v, p + 1 + |I32Bits(v)|))
  {
    I32Placed(s, p, v);
    I32FieldsRead(s, p, v);
  }

  /** The canonical encoding is never longer than the encoding it re-encodes: a
      signed value read after a debug bit at `p` (any encoding, canonical or not)
      occupies at least `I32Width(v)` bits from `p + 1`. */
  lemma I32WidthWithin(s: seq<Bit>, p: int)
    requires I32PackedAt(s, p, NoOid).Some?
    requires I32PackedAt(s, p, NoOid).value.value != MinInt32
    ensures var r := I32PackedAt(s, p, NoOid).value;
      0 <= p && p + 1 + I32Width(r.value) <= r.next
  {
    I32PackedLayout(s, p);
    var r := I32PackedAt(s, p, NoOid).value;
    if s[p + 1] != 0 {
      var bits := s[p + 8..r.next];
      SmallInt32Of(bits);
      ReadWidth(r.value, |bits|, Int32Of(bits), s[p + 2] == 1);
    }
  }

  /** A value made of `n` magnitude bits (negated or not) needs at most `n`
      significant bits, unless it is `int.MinValue`. */
  lemma ReadWidth(v: int, n: nat, m: int, negate: bool)
    requires 0 < n <= 32 && IsInt32(m) && (n < 32 ==> 0 <= m < Pow2(n))
    requires v == (if negate then Wrap32(-m) else m) && v != MinInt32
    ensures I32Width(v) <= 7 + n
  {
    if v != 0 {
      if n < 32 {
        if negate {
          PowMono(n, 31);
          Pow2Of31();
          Wrap32Id(-m);
        }
        assert Magnitude(v) == m;
      } else {
        Pow2Of32();
      }
      BitLengthFits(Magnitude(v), n);
    }
  }
}
