/** Stateless bit primitives over a byte buffer, LSB-first within each byte:
    bit `pos` of a buffer is bit `pos & 7` of byte `pos >> 3`. */
module BitWriter {
  import opened BitMath

  type byte = b: int | 0 <= b < 256

  /** Bit `pos` of `data`: `(data[pos >> 3] >> (pos & 7)) & 1`. An index outside the
      buffer is an index fault in the source, hence the precondition. */
  function GetBit(data: seq<byte>, pos: int): (r: Bit)
    requires 0 <= pos < 8 * |data|
    ensures r == (data[pos / 8] / Pow2(pos % 8)) % 2
  {
    BitOfShift(data[pos / 8], pos % 8);
    BitOf(data[pos / 8], pos % 8)
  }

  /** The whole buffer as a stream of bits, in the order the cursor visits them. */
  function Bits(data: seq<byte>): (r: seq<Bit>)
    ensures |r| == 8 * |data|
  {
    seq(8 * |data|, p requires 0 <= p < 8 * |data| => GetBit(data, p))
  }

  /** `s` with the bits starting at `at` replaced by `w`. */
  function Overwrite(s: seq<Bit>, at: int, w: seq<Bit>): (r: seq<Bit>)
    requires 0 <= at && at + |w| <= |s|
    ensures |r| == |s|
  {
    s[..at] + w + s[at + |w|..]
  }

  /** The bits `WriteBits` stores: for each `i < count`, bit `i & 31` of the 32-bit
      pattern (C# masks an `int`/`uint` shift count to its low five bits). */
  function PatternWindow(pattern: nat, count: nat): (r: seq<Bit>)
    ensures |r| == count
  {
    seq(count, i requires 0 <= i < count => BitOf(pattern, i % 32))
  }

  /** Reads `count` bits at `pos` into a C# `int`, the first one as bit 0. Up to
      32 bits this is `Int32Of` (a 32-bit read with the last bit set is
      negative); beyond, the shift count wraps and later bits fold onto earlier ones. */
  method ReadBitsAt(data: array<byte>, pos: int, count: nat) returns (r: int)
    requires 0 <= pos && pos + count <= 8 * data.Length
    ensures r == IntAcc(Bits(data[..])[pos..pos + count])
    ensures count <= 32 ==> r == Int32Of(Bits(data[..])[pos..pos + count])
  {
    ghost var stream := Bits(data[..]);
    ghost var read: seq<Bit> := [];
    r := 0;
    var i := 0;
    while i < count
      invariant 0 <= i <= count
      invariant read == stream[pos..pos + i]
      invariant r == IntAcc(read)
    {
      var bit := GetBit(data[..], pos + i);
      if bit == 1 {
        r := ToInt32(OrBit32(Pattern32(r), i % 32));  // r |= bit << i
      }
      SliceExtend(stream, pos, i);
      IntAccSnoc(read, bit);
      read := read + [bit];
      i := i + 1;
    }
    if count <= 32 {
      IntAccIsInt32Of(read);
    }
  }

  /** Sets (val != 0, `|= 1 << (pos & 7)`) or clears (`&= ~(1 << (pos & 7))`) bit `pos`. */
  method SetBit(data: array<byte>, pos: int, val: int)
    requires 0 <= pos < 8 * data.Length
    modifies data
    ensures Bits(data[..]) == Bits(old(data[..]))[pos := if val != 0 then 1 else 0]
  {
    ghost var s := data[..];
    var v: Bit := if val != 0 then 1 else 0;
    WithBitByte(data[pos / 8], pos % 8, v);
    data[pos / 8] := WithBit(data[pos / 8], pos % 8, v);
    assert data[..] == s[pos / 8 := WithBit(s[pos / 8], pos % 8, v)];
    UpdateInStream(s, pos, v);
  }

  /** Writes the low `count` bits of the C# `int` `value` at `pos` (bit `i & 31` at `pos + i`). */
  method WriteBits(data: array<byte>, pos: int, value: int, count: nat)
    requires IsInt32(value)
    requires 0 <= pos && pos + count <= 8 * data.Length
    modifies data
    ensures Bits(data[..]) == Overwrite(Bits(old(data[..])), pos, PatternWindow(Pattern32(value), count))
  {
    WriteBitsUnsigned(data, pos, Pattern32(value), count);
  }

  /** The `uint` overload of `WriteBits`. */
  method WriteBitsUnsigned(data: array<byte>, pos: int, value: nat, count: nat)
    requires value < TwoTo32
    requires 0 <= pos && pos + count <= 8 * data.Length
    modifies data
    ensures Bits(data[..]) == Overwrite(Bits(old(data[..])), pos, PatternWindow(value, count))
  {
    ghost var orig := Bits(data[..]);
    ghost var written: seq<Bit> := [];
    var i := 0;
    while i < count
      invariant 0 <= i <= count
      invariant written == PatternWindow(value, i)
      invariant Bits(data[..]) == Overwrite(orig, pos, written)
    {
      var bit := BitOf(value, i % 32);  // (value >> i) & 1
      OverwriteExtend(orig, pos, written, bit);
      SetBit(data, pos + i, bit);
      PatternWindowExtend(value, i);
      written := written + [bit];
      i := i + 1;
    }
  }

  /** Copies `count` bits of `src` from `srcPos` to `dst` at `dstPos`, bit by bit. */
  method CopyBits(src: array<byte>, srcPos: int, dst: array<byte>, dstPos: int, count: nat)
    requires src != dst
    requires 0 <= srcPos && srcPos + count <= 8 * src.Length && 0 <= dstPos && dstPos + count <= 8 * dst.Length
    modifies dst
    ensures src[..] == old(src[..])
    ensures Bits(dst[..]) == Overwrite(Bits(old(dst[..])), dstPos, Bits(src[..])[srcPos..srcPos + count])
  {
    ghost var from := Bits(src[..]);
    ghost var to := Bits(dst[..]);
    ghost var copied: seq<Bit> := [];
    var i := 0;
    while i < count
      invariant 0 <= i <= count
      invariant src[..] == old(src[..])
      invariant copied == from[srcPos..srcPos + i]
      invariant Bits(dst[..]) == Overwrite(to, dstPos, copied)
    {
      var bit := GetBit(src[..], srcPos + i);
      assert (if bit != 0 then 1 else 0) == bit;
      OverwriteExtend(to, dstPos, copied, bit);
      SetBit(dst, dstPos + i, bit);
      SliceExtend(from, srcPos, i);
      copied := copied + [bit];
      i := i + 1;
    }
  }

  // ---------------------------------------------------------------------------
  // Lemmas

  lemma WithBitByte(b: byte, k: nat, v: Bit)
    requires k < 8
    ensures WithBit(b, k, v) < 256
  {
    WithBitBound(b, k, v, 8);
  }

  /** Replacing bit `pos & 7` of byte `pos >> 3` replaces exactly bit `pos` of the stream. */
  lemma UpdateInStream(s: seq<byte>, pos: int, v: Bit)
    requires 0 <= pos < 8 * |s|
    requires WithBit(s[pos / 8], pos % 8, v) < 256
    ensures Bits(s[pos / 8 := WithBit(s[pos / 8], pos % 8, v)]) == Bits(s)[pos := v]
  {
    var t := s[pos / 8 := WithBit(s[pos / 8], pos % 8, v)];
    forall p | 0 <= p < 8 * |s|
      ensures Bits(t)[p] == Bits(s)[pos := v][p]
    {
      if p / 8 == pos / 8 {
        WithBitSpec(s[pos / 8], pos % 8, v, p % 8);
      }
    }
  }

  lemma SliceExtend(s: seq<Bit>, at: int, i: int)
    requires 0 <= at && 0 <= i && at + i < |s|
    ensures s[at..at + i] + [s[at + i]] == s[at..at + i + 1]
  {
  }

  lemma OverwriteExtend(s: seq<Bit>, at: int, w: seq<Bit>, x: Bit)
    requires 0 <= at && at + |w| < |s|
    ensures Overwrite(s, at, w)[at + |w| := x] == Overwrite(s, at, w + [x])
  {
  }

  lemma PatternWindowExtend(p: nat, i: nat)
    ensures PatternWindow(p, i + 1) == PatternWindow(p, i) + [BitOf(p, i % 32)]
  {
  }

  /** `WriteBits` followed by `ReadBitsAt` at the same place returns the low `count`
      bits of the written pattern; a full 32-bit write returns the pattern itself. */
  lemma {:induction false} WriteThenRead(s: seq<Bit>, pos: int, pattern: nat, count: nat)
    requires 0 < count <= 32 && 0 <= pos && pos + count <= |s|
    ensures Overwrite(s, pos, PatternWindow(pattern, count))[pos..pos + count] == LowBits(pattern, count)
    ensures pattern < Pow2(count) ==> Value(Overwrite(s, pos, PatternWindow(pattern, count))[pos..pos + count]) == pattern
  {
    assert PatternWindow(pattern, count) == LowBits(pattern, count);
    assert Overwrite(s, pos, PatternWindow(pattern, count))[pos..pos + count] == PatternWindow(pattern, count);
    if pattern < Pow2(count) {
      ValueOfLowBits(pattern, count);
    }
  }
}
