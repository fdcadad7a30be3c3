/** The cursor reader: a buffer and a bit position that every read advances.
    Each read is proved to return what the matching `StreamFormat` decoder
    returns at the old position and to leave the cursor where that decoder
    stops. A read the buffer cannot satisfy is an index fault in the source; the
    methods require that the decoder succeeds. */
module Reader {
  import opened Wrappers
  import opened BitMath
  import opened BitWriter
  import opened StreamFormat

  class BitReader {
    const data: array<byte>
    /** The buffer as the stream of bits the decoders read. */
    ghost const stream: seq<Bit>
    var Pos: int

    /** The buffer has not changed since the reader was made. */
    ghost predicate Valid()
      reads data
    {
      |stream| == 8 * data.Length && Agrees(stream, data[..], |stream|)
    }

    constructor(data: array<byte>, pos: int)
      ensures this.data == data && stream == Bits(data[..]) && Pos == pos
      ensures Valid()
    {
      this.data := data;
      stream := Bits(data[..]);
      Pos := pos;
      AgreesWithBits(data[..], 8 * data.Length);
    }

    /** The bit at `Pos`; `Pos` moves on by one. */
    method ReadBool() returns (v: Bit)
      requires Valid()
      requires BitAt(stream, Pos).Some?
      modifies this
      ensures BitAt(stream, old(Pos)) == Some(Read(v, Pos))
    {
      AgreesAt(stream, data[..], |stream|, Pos);
      v := BitOf(data[Pos / 8], Pos % 8);
      Pos := Pos + 1;
    }

    /** `count` bits, the first one lowest, OR-ed into a C# `int`. Up to 32 bits
        this is the `IntBitsAt` decoder; beyond, the shift count wraps. */
    method ReadBits(count: nat) returns (v: int)
      requires Valid()
      requires BitsAt(stream, Pos, count).Some?
      modifies this
      ensures Pos == old(Pos) + count
      ensures count == 0 ==> v == 0
      ensures count > 0 ==> v == IntAcc(stream[old(Pos)..Pos])
      ensures count <= 32 ==> IntBitsAt(stream, old(Pos), count) == Some(Read(v, Pos))
    {
      ghost var start := Pos;
      v := 0;
      ghost var read: seq<Bit> := [];
      var i := 0;
      while i < count
        invariant 0 <= i <= count && Pos == start + i
        invariant |read| == i && (i > 0 ==> 0 <= start && start + i <= |stream| && read == stream[start..start + i])
        invariant v == IntAcc(read)
      {
        var bit := ReadBool();
        BitStep(stream, start, i, read, bit);
        if bit == 1 {
          v := ToInt32(OrBit32(Pattern32(v), i % 32));  // v |= bit << i
        }
        IntAccSnoc(read, bit);
        read := read + [bit];
        i := i + 1;
      }
      AccFrom(stream, start, count, read);
    }

    /** The `uint` form of `ReadBits`: up to 32 bits this is the `BitsAt` decoder;
        beyond, the shift count wraps and the result stays below 2^32. */
    method ReadBitsU(count: nat) returns (v: nat)
      requires Valid()
      requires BitsAt(stream, Pos, count).Some?
      modifies this
      ensures Pos == old(Pos) + count && v < TwoTo32
      ensures count == 0 ==> v == 0
      ensures count > 0 ==> v == UIntAcc(stream[old(Pos)..Pos])
      ensures count <= 32 ==> BitsAt(stream, old(Pos), count) == Some(Read(v, Pos))
    {
      ghost var start := Pos;
      v := 0;
      ghost var read: seq<Bit> := [];
      var i := 0;
      while i < count
        invariant 0 <= i <= count && Pos == start + i
        invariant |read| == i && (i > 0 ==> 0 <= start && start + i <= |stream| && read == stream[start..start + i])
        invariant v == UIntAcc(read)
      {
        var bit := ReadBool();
        BitStep(stream, start, i, read, bit);
        if bit == 1 {
          v := OrBit32(v, i % 32);  // v |= (uint)bit << i
        }
        UIntAccSnoc(read, bit);
        read := read + [bit];
        i := i + 1;
      }
      AccFrom(stream, start, count, read);
    }

    method DebugSkip(oid: int)
      requires Valid()
      requires DebugSkipAt(stream, Pos, oid).Some?
      modifies this
      ensures DebugSkipAt(stream, old(Pos), oid) == Some(Pos)
    {
      var _ := ReadBool();
      if oid != NoOid {
        var _ := ReadBits(32);
      }
    }

    method ReadU32Packed(oid: int) returns (v: nat)
      requires Valid()
      requires U32PackedAt(stream, Pos, oid).Some?
      modifies this
      ensures U32PackedAt(stream, old(Pos), oid) == Some(Read(v, Pos))
    {
      DebugSkip(oid);
      var present := ReadBool();
      if present == 0 {
        return 0;
      }
      var lzc := ReadBits(5);
      assert Pow2(5) == 32;
      var vb: nat := 32 - lzc;  // at least 1: the guard `vb > 0` of the source always holds
      v := ReadBitsU(vb);
    }

    method ReadI32Packed(oid: int) returns (v: int)
      requires Valid()
      requires I32PackedAt(stream, Pos, oid).Some?
      modifies this
      ensures I32PackedAt(stream, old(Pos), oid) == Some(Read(v, Pos))
    {
      ghost var start := Pos;
      DebugSkip(oid);
      ghost var q := Pos;
      var present := ReadBool();
      if present == 0 {
        return 0;
      }
      ghost var afterSign := Pos + 1;
      var sign := ReadBool();
      var lzc := ReadBits(5);
      ghost var afterLzc := Pos;
      assert Pow2(5) == 32;
      var vb: nat := 32 - lzc;
      var magnitude := ReadBits(vb);
      I32PackedFrom(stream, start, oid, q, Read(sign, afterSign), Read(lzc, afterLzc), vb, Read(magnitude, Pos));
      v := if sign != 0 then Wrap32(-magnitude) else magnitude;
    }

    method ReadU64Packed(oid: int) returns (v: int)
      requires Valid()
      requires U64PackedAt(stream, Pos, oid).Some?
      modifies this
      ensures U64PackedAt(stream, old(Pos), oid) == Some(Read(v, Pos))
    {
      ghost var start := Pos;
      DebugSkip(oid);
      ghost var q := Pos;
      var lo := ReadU32Packed(NoOid);
      ghost var afterLo := Pos;
      var hi := ReadU32Packed(NoOid);
      U64PackedFrom(stream, start, oid, q, Read(lo, afterLo), Read(hi, Pos));
      v := ToInt64(hi * TwoTo32 + lo);
    }

    method ReadBoolWrapped(oid: int) returns (v: Bit)
      requires Valid()
      requires BoolWrappedAt(stream, Pos, oid).Some?
      modifies this
      ensures BoolWrappedAt(stream, old(Pos), oid) == Some(Read(v, Pos))
    {
      DebugSkip(oid);
      v := ReadBool();
    }

    method ReadString(oid: int) returns (str: string)
      requires Valid()
      requires StringAt(stream, Pos, oid).Some?
      modifies this
      ensures StringAt(stream, old(Pos), oid) == Some(Read(str, Pos))
    {
      ghost var p := Pos;
      DebugSkip(oid);
      ghost var q := Pos;
      var length := ReadU32Packed(NoOid);
      if length == 0 {
        return "";
      }
      ghost var afterLength := Pos;
      StringParts(stream, p, oid, q, Read(length, afterLength));
      var charBitWidth := ReadBits(4);
      ghost var afterWidth := Pos;
      var baseChar := ReadBits(8);
      ghost var start := Pos;
      str := ReadChars(length, charBitWidth, baseChar);
      StringFrom(stream, p, oid, q, Read(length, afterLength), Read(charBitWidth, afterWidth), Read(baseChar, start), Read(str, Pos));
    }

    /** The character loop of `ReadString`: `n` code units of `w` bits, each
        offset by `base`. */
    method ReadChars(n: nat, w: int, base: int) returns (str: string)
      requires Valid()
      requires 0 <= w < 16 && 0 <= base < 256
      requires CharsAt(stream, Pos, n, w, base).Some?
      modifies this
      ensures CharsAt(stream, old(Pos), n, w, base) == Some(Read(str, Pos))
    {
      ghost var start := Pos;
      str := "";
      var i := 0;
      while i < n
        invariant 0 <= i <= n
        invariant CharsAt(stream, start, i, w, base) == Some(Read(str, Pos))
      {
        CharsNext(stream, start, n, w, base, i, str, Pos);
        ghost var before := Pos;
        var c := ReadBits(w);
        CharsStep(stream, start, i, w, base, str, before, c, Pos);
        str := str + [CodeUnit(c + base)];
        i := i + 1;
      }
    }

    /** `ReadFloat`, returning the raw bits of the float. */
    method ReadFloat(oid: int) returns (raw: nat)
      requires Valid()
      requires FloatBitsAt(stream, Pos, oid).Some?
      modifies this
      ensures FloatBitsAt(stream, old(Pos), oid) == Some(Read(raw, Pos))
    {
      DebugSkip(oid);
      raw := ReadU32Packed(NoOid);
    }

    method ReadChunkHeader() returns (ch: ChunkHeader)
      requires Valid()
      requires ChunkHeaderAt(stream, Pos).Some?
      modifies this
      ensures ChunkHeaderAt(stream, old(Pos)) == Some(Read(ch, Pos))
      ensures ch.dataStart == ch.sizePos + 32 == Pos && IntBitsAt(stream, ch.sizePos, 32) == Some(Read(ch.size, Pos))
    {
      ghost var start := Pos;
      var parent: Option<nat> := None;
      var hasParent := ReadBool();
      if hasParent != 0 {
        var raw := ReadBitsU(32);
        parent := Some(raw);
      }
      assert ParentAt(stream, start) == Some(Read(parent, Pos));
      ghost var afterParent := Pos;
      var tag := ReadU32Packed(NoOid);
      ghost var afterTag := Pos;
      var version := ReadU32Packed(NoOid);
      ghost var afterVersion := Pos;
      var subVersion := ReadU32Packed(NoOid);
      var sizePos := Pos;
      var size := ReadBits(32);
      ChunkHeaderFrom(stream, start, parent, afterParent, tag, afterTag, version, afterVersion,
                      subVersion, sizePos, size, Pos);
      ch := HeaderOf(parent, tag, version, subVersion, sizePos, size, Pos);
    }

    method SkipChunk(ch: ChunkHeader)
      requires Valid()
      requires SkipChunkAt(stream, ch).Some?
      modifies this
      ensures SkipChunkAt(stream, ch) == Some(Pos)
    {
      Pos := ch.dataEnd;
      var flag := ReadBool();
      if flag != 0 {
        var _ := ReadBits(32);
      }
    }

    method ReadChunkStart(oid: int) returns (sc: SubChunkHeader)
      requires Valid()
      requires ChunkStartAt(stream, Pos, oid).Some?
      modifies this
      ensures ChunkStartAt(stream, old(Pos), oid) == Some(Read(sc, Pos))
      ensures sc.dataStart == Pos && IntBitsAt(stream, Pos - 32, 32) == Some(Read(sc.size, Pos))
    {
      ghost var start := Pos;
      DebugSkip(oid);
      ghost var q := Pos;
      var version := ReadU32Packed(NoOid);
      ghost var afterVersion := Pos;
      var subVersion := ReadU32Packed(NoOid);
      ghost var afterSubVersion := Pos;
      var val3 := ReadU32Packed(NoOid);
      ghost var afterVal3 := Pos;
      var size := ReadBits(32);
      ChunkStartFrom(stream, start, oid, q, version, afterVersion, subVersion, afterSubVersion, val3, afterVal3, size, Pos);
      sc := SubHeaderOf(version, subVersion, val3, size, Pos);
    }
  }

  /** The first `n` bits of `s` are the bits of the buffer `d`. Stated bit by bit
      so that a reader's validity does not unfold into the whole stream. */
  ghost predicate Agrees(s: seq<Bit>, d: seq<byte>, n: nat)
    requires n <= |s| && n <= 8 * |d|
  {
    n == 0 || (Agrees(s, d, n - 1) && s[n - 1] == GetBit(d, n - 1))
  }

  lemma {:induction false} AgreesAt(s: seq<Bit>, d: seq<byte>, n: nat, p: int)
    requires n <= |s| && n <= 8 * |d| && Agrees(s, d, n) && 0 <= p < n
    ensures s[p] == GetBit(d, p)
  {
    if p < n - 1 {
      AgreesAt(s, d, n - 1, p);
    }
  }

  lemma {:induction false} AgreesWithBits(d: seq<byte>, n: nat)
    requires n <= 8 * |d|
    ensures Agrees(Bits(d), d, n)
  {
    if n > 0 {
      AgreesWithBits(d, n - 1);
    }
  }
}
