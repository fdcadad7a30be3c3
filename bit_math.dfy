/** Arithmetic on bit strings: LSB-first values, bit extraction, bit length and
    the 32-bit two's-complement reinterpretations the C# code performs implicitly. */
module BitMath {

  /** One bit, as the source stores it in an `int` (0 or 1). */
  type Bit = b: int | 0 <= b <= 1

  const TwoTo31: nat := 0x8000_0000
  const TwoTo32: nat := 0x1_0000_0000
  const TwoTo64: nat := 0x1_0000_0000_0000_0000
  const MinInt32: int := -0x8000_0000

  function Pow2(n: nat): (r: nat)
    ensures r >= 1
  {
    if n == 0 then 1 else 2 * Pow2(n - 1)
  }

  /** Bit `i` of `v`, that is `(v >> i) & 1`. */
  function BitOf(v: nat, i: nat): Bit
  {
    if i == 0 then v % 2 else BitOf(v / 2, i - 1)
  }

  /** `BitOf` is the shift-and-mask `(v >> i) & 1`. */
  lemma {:induction false} BitOfShift(v: nat, i: nat)
    ensures BitOf(v, i) == (v / Pow2(i)) % 2
  {
    if i > 0 {
      BitOfShift(v / 2, i - 1);
      HalveDiv(v, Pow2(i - 1));
    }
  }

  /** Halving and then dividing by `c` is dividing by `2 * c`. */
  lemma HalveDiv(v: nat, c: nat)
    requires c >= 1
    ensures v / 2 / c == v / (2 * c)
  {
    var q, r := v / 2 / c, v / 2 % c;
    assert v / 2 == c * q + r;
    assert v == (2 * c) * q + (2 * r + v % 2);
    DivUnique(v, 2 * c, q, 2 * r + v % 2);
  }

  /** A quotient and remainder in range are the quotient. */
  lemma DivUnique(v: nat, m: nat, q: nat, r: nat)
    requires 0 <= r < m && v == m * q + r
    ensures v / m == q
  {
    var d := v / m;
    assert v == m * d + v % m;
    if d < q {
      MulSplit(m, d, q - d);
      MulAtLeast(m, q - d);
    } else if d > q {
      MulSplit(m, q, d - q);
      MulAtLeast(m, d - q);
    }
  }

  lemma MulSplit(m: nat, a: nat, k: nat)
    ensures m * (a + k) == m * a + m * k
  {
  }

  lemma {:induction false} MulAtLeast(m: nat, k: nat)
    requires k >= 1
    ensures m * k >= m
  {
    if k > 1 {
      MulAtLeast(m, k - 1);
      MulSplit(m, k - 1, 1);
    }
  }

  /** The low `n` bits of `v`, least significant first. */
  function LowBits(v: nat, n: nat): (r: seq<Bit>)
    ensures |r| == n
  {
    seq(n, i requires 0 <= i < n => BitOf(v, i))
  }

  /** The number an LSB-first run of bits stands for. */
  function Value(b: seq<Bit>): nat
  {
    if b == [] then 0 else b[0] + 2 * Value(b[1..])
  }

  /** Number of significant bits of `v`: 32 minus the leading-zero count of a 32-bit value. */
  function BitLength(v: nat): nat
  {
    if v == 0 then 0 else 1 + BitLength(v / 2)
  }

  predicate IsInt32(x: int) { MinInt32 <= x < TwoTo31 }

  /** A C# `int`. */
  type Int32 = x: int | IsInt32(x)

  /** A 32-bit pattern read as a C# `int` (two's complement). */
  function ToInt32(u: nat): (r: int)
    requires u < TwoTo32
    ensures IsInt32(r)
  {
    if u < TwoTo31 then u else u - TwoTo32
  }

  /** The 32-bit pattern of a C# `int`. */
  function Pattern32(x: int): (r: nat)
    requires IsInt32(x)
    ensures r < TwoTo32
  {
    if x < 0 then x + TwoTo32 else x
  }

  /** Unchecked C# `int` arithmetic: the result wraps modulo 2^32. */
  function Wrap32(x: int): (r: int)
    ensures IsInt32(r)
  {
    ToInt32(x % TwoTo32)
  }

  /** Wrapping leaves a value that already fits in an `int` alone. */
  lemma Wrap32Id(x: int)
    requires IsInt32(x)
    ensures Wrap32(x) == x
  {
    if x < 0 {
      assert x % TwoTo32 == x + TwoTo32;
    }
  }

  /** A 64-bit pattern read as a C# `long`. */
  function ToInt64(u: nat): int
    requires u < TwoTo64
  {
    if u < TwoTo64 / 2 then u else u - TwoTo64
  }

  // ---------------------------------------------------------------------------
  // Lemmas

  lemma {:induction false} ValueBound(b: seq<Bit>)
    ensures Value(b) < Pow2(|b|)
  {
    if b != [] {
      ValueBound(b[1..]);
    }
  }

  lemma {:induction false} ValueAppend(b: seq<Bit>, x: Bit)
    ensures Value(b + [x]) == Value(b) + x * Pow2(|b|)
  {
    if b == [] {
      assert b + [x] == [x];
      assert [x][1..] == [];
    } else {
      assert (b + [x])[1..] == b[1..] + [x];
      ValueAppend(b[1..], x);
      if x == 0 {
      } else {
        assert Pow2(|b|) == 2 * Pow2(|b| - 1);
      }
    }
  }

  lemma {:induction false} LowBitsTail(v: nat, n: nat)
    requires n > 0
    ensures LowBits(v, n)[0] == v % 2
    ensures LowBits(v, n)[1..] == LowBits(v / 2, n - 1)
  {
  }

  lemma LowBitsExtend(v: nat, n: nat)
    ensures LowBits(v, n + 1) == LowBits(v, n) + [BitOf(v, n)]
  {
  }

  /** Writing the low `n` bits of `v` and reading them back yields `v` when it fits. */
  lemma {:induction false} ValueOfLowBits(v: nat, n: nat)
    requires v < Pow2(n)
    ensures Value(LowBits(v, n)) == v
  {
    if n == 0 {
      assert LowBits(v, n) == [];
    } else {
      LowBitsTail(v, n);
      ValueOfLowBits(v / 2, n - 1);
    }
  }

  /** Reading a run of bits and writing its value back reproduces the run. */
  lemma {:induction false} LowBitsOfValue(b: seq<Bit>)
    ensures LowBits(Value(b), |b|) == b
  {
    if b != [] {
      LowBitsOfValue(b[1..]);
      var v := Value(b);
      assert v / 2 == Value(b[1..]) && v % 2 == b[0];
      LowBitsTail(v, |b|);
      assert LowBits(v, |b|)[1..] == b[1..];
    }
  }

  lemma {:induction false} BitLengthBound(v: nat)
    ensures v < Pow2(BitLength(v))
    ensures v > 0 ==> Pow2(BitLength(v) - 1) <= v
  {
    if v > 0 {
      BitLengthBound(v / 2);
    }
  }

  /** The top significant bit is set: the basis of the canonical encoding. */
  lemma {:induction false} TopBitSet(v: nat)
    requires v > 0
    ensures BitOf(v, BitLength(v) - 1) == 1
  {
    if v / 2 > 0 {
      TopBitSet(v / 2);
    }
  }

  lemma {:induction false} BitAboveLength(v: nat, i: nat)
    requires i >= BitLength(v)
    ensures BitOf(v, i) == 0
  {
    if i > 0 {
      BitAboveLength(v / 2, i - 1);
    }
  }

  /** `BitLength(v) <= n` exactly when `v` fits in `n` bits. */
  lemma {:induction false} BitLengthFits(v: nat, n: nat)
    ensures BitLength(v) <= n <==> v < Pow2(n)
  {
    if v > 0 && n > 0 {
      BitLengthFits(v / 2, n - 1);
    }
  }

  /** `b` with bit `k` replaced by `v`: `b | (1 << k)` when v == 1, `b & ~(1 << k)` when v == 0. */
  function WithBit(b: nat, k: nat, v: Bit): nat
  {
    if k == 0 then b - b % 2 + v else 2 * WithBit(b / 2, k - 1, v) + b % 2
  }

  /** Replacing bit `k` changes bit `k` to `v` and leaves every other bit alone. */
  lemma {:induction false} WithBitSpec(b: nat, k: nat, v: Bit, j: nat)
    ensures BitOf(WithBit(b, k, v), j) == if j == k then v else BitOf(b, j)
  {
    if k == 0 {
      if j > 0 {
        assert (b - b % 2 + v) / 2 == b / 2;
      }
    } else if j > 0 {
      var c := WithBit(b / 2, k - 1, v);
      assert (2 * c + b % 2) / 2 == c;
      WithBitSpec(b / 2, k - 1, v, j - 1);
    }
  }

  /** Replacing a bit below position `n` keeps a value below 2^n. */
  lemma {:induction false} WithBitBound(b: nat, k: nat, v: Bit, n: nat)
    requires k < n && b < Pow2(n)
    ensures WithBit(b, k, v) < Pow2(n)
  {
    assert Pow2(n) == 2 * Pow2(n - 1);
    if k > 0 {
      WithBitBound(b / 2, k - 1, v, n - 1);
    } else {
      assert b % 2 == 0 ==> b + 1 < Pow2(n);
    }
  }

  lemma {:induction false} PowMono(m: nat, n: nat)
    requires m <= n
    ensures Pow2(m) <= Pow2(n)
  {
    if m < n {
      PowMono(m, n - 1);
    }
  }

  lemma Pow2Of32()
    ensures Pow2(32) == TwoTo32
  {
    assert Pow2(8) == 256;
    assert Pow2(16) == 256 * 256 by { Pow2Add(8, 8); }
    Pow2Add(16, 16);
  }

  lemma Pow2Of31()
    ensures Pow2(31) == TwoTo31
  {
    Pow2Of32();
  }

  lemma {:induction false} Pow2Add(m: nat, n: nat)
    ensures Pow2(m + n) == Pow2(m) * Pow2(n)
  {
    if n > 0 {
      Pow2Add(m, n - 1);
    }
  }

  /** At most 32 bits fit in a 32-bit pattern, so `Int32Of` is well defined. */
  lemma Int32OfValue(b: seq<Bit>)
    requires |b| <= 32
    ensures Value(b) < TwoTo32 && Int32Of(b) == ToInt32(Value(b))
  {
    ValueBound(b);
    PowMono(|b|, 32);
    Pow2Of32();
  }

  /** At most 32 bits, LSB first, read as a C# `int` (bit 31 is the sign). */
  function Int32Of(b: seq<Bit>): (r: int)
    requires |b| <= 32
    ensures IsInt32(r)
  {
    ValueBound(b);
    PowMono(|b|, 32);
    Pow2Of32();
    ToInt32(Value(b))
  }

  // ---------------------------------------------------------------------------
  // The source's accumulators

  /** `u | (1u << k)` on a 32-bit pattern. */
  function OrBit32(u: nat, k: nat): (r: nat)
    requires u < TwoTo32 && k < 32
    ensures r < TwoTo32
  {
    Pow2Of32();
    WithBitBound(u, k, 1, 32);
    WithBit(u, k, 1)
  }

  /** `uint v = 0; for (int i = 0; i < b.Length; i++) v |= (uint)b[i] << i;`
      A C# shift takes its count modulo 32, so bit `i` lands on bit `i % 32`;
      OR-ing in a clear bit leaves `v` alone. */
  function UIntAcc(b: seq<Bit>): (r: nat)
    ensures r < TwoTo32
  {
    if b == [] then 0
    else
      var v := UIntAcc(b[..|b| - 1]);
      if b[|b| - 1] == 1 then OrBit32(v, (|b| - 1) % 32) else v
  }

  /** The same loop over a C# `int` accumulator: `v |= b[i] << i`. A shift into
      bit 31 sets the sign. */
  function IntAcc(b: seq<Bit>): (r: int)
    ensures IsInt32(r)
  {
    if b == [] then 0
    else
      var v := IntAcc(b[..|b| - 1]);
      if b[|b| - 1] == 1 then ToInt32(OrBit32(Pattern32(v), (|b| - 1) % 32)) else v
  }

  /** One more turn of the `int` loop. */
  lemma IntAccSnoc(b: seq<Bit>, bit: Bit)
    ensures IntAcc(b + [bit]) ==
      if bit == 1 then ToInt32(OrBit32(Pattern32(IntAcc(b)), |b| % 32)) else IntAcc(b)
  {
    assert (b + [bit])[..|b|] == b;
  }

  /** One more turn of the `uint` loop. */
  lemma UIntAccSnoc(b: seq<Bit>, bit: Bit)
    ensures UIntAcc(b + [bit]) == if bit == 1 then OrBit32(UIntAcc(b), |b| % 32) else UIntAcc(b)
  {
    assert (b + [bit])[..|b|] == b;
  }

  /** Setting a bit above a value's length adds that power of two. */
  lemma {:induction false} WithBitFresh(u: nat, k: nat)
    requires u < Pow2(k)
    ensures WithBit(u, k, 1) == u + Pow2(k)
  {
    if k > 0 {
      WithBitFresh(u / 2, k - 1);
    }
  }

  /** OR-ing in a bit above a value's length adds that power of two. */
  lemma OrFreshBit(u: nat, k: nat)
    requires k < 32 && u < Pow2(k)
    ensures u < TwoTo32 && OrBit32(u, k) == u + Pow2(k)
  {
    PowMono(k, 32);
    Pow2Of32();
    WithBitFresh(u, k);
  }

  /** The `int` and the `uint` loop build the same 32-bit pattern. */
  lemma {:induction false} IntAccPattern(b: seq<Bit>)
    ensures IntAcc(b) == ToInt32(UIntAcc(b))
  {
    if b != [] {
      IntAccPattern(b[..|b| - 1]);
    }
  }

  /** Up to 32 bits, no shift wraps and no bit is set twice: the `uint` loop
      computes the number the bits stand for. */
  lemma {:induction false} UIntAccValue(b: seq<Bit>)
    requires |b| <= 32
    ensures UIntAcc(b) == Value(b)
  {
    if b != [] {
      var front, last := b[..|b| - 1], b[|b| - 1];
      assert front + [last] == b;
      UIntAccValue(front);
      UIntAccSnoc(front, last);
      ValueAppend(front, last);
      if last == 1 {
        ValueBound(front);
        assert |front| % 32 == |front|;
        OrFreshBit(Value(front), |front|);
      }
    }
  }

  /** Up to 32 bits, the `int` loop computes `Int32Of`: the value of the bits,
      negative when bit 31 is set. */
  lemma IntAccIsInt32Of(b: seq<Bit>)
    requires |b| <= 32
    ensures IntAcc(b) == Int32Of(b)
  {
    IntAccPattern(b);
    UIntAccValue(b);
  }
}
