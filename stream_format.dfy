/** The field encodings of the save format as pure decoders over the bit stream.
    Each decoder takes the stream and a cursor and returns the decoded value with
    the cursor after it, or `None` where the source would fault reading past the
    buffer (or, for strings, on a length whose `int` cast is negative). The
    `BitReader` class is proved against these functions. */
module StreamFormat {
  import opened Wrappers
  import opened BitMath

  /** A decoded value and the cursor position just after it. */
  datatype Read<T> = Read(value: T, next: int)

  /** The debug object id that means "no id follows". */
  const NoOid: int := -1

  /** A chunk header. `parent` and `tag` are kept as their raw 32-bit values (the
      source turns them into four ASCII characters). */
  datatype ChunkHeader = ChunkHeader(
    parent: Option<nat>,
    tag: nat,
    version: nat,
    subVersion: nat,
    sizePos: int,
    size: int,
    dataStart: int,
    dataEnd: int)

  datatype SubChunkHeader = SubChunkHeader(
    version: nat,
    subVersion: nat,
    val3: nat,
    size: int,
    dataStart: int,
    dataEnd: int)

  /** The bit at `p`. */
  function BitAt(s: seq<Bit>, p: int): Option<Read<Bit>>
  {
    if 0 <= p < |s| then Some(Read(s[p], p + 1)) else None
  }

  /** `n` bits at `p` as an unsigned number (`ReadBitsU`). No bit is touched when `n == 0`. */
  function BitsAt(s: seq<Bit>, p: int, n: nat): (r: Option<Read<nat>>)
    ensures r.Some? ==> r.value.value < Pow2(n) && r.value.next == p + n
  {
    if n == 0 then Some(Read(0, p))
    else if 0 <= p && p + n <= |s| then (ValueBound(s[p..p + n]); Some(Read(Value(s[p..p + n]), p + n)))
    else None
  }

  /** `n <= 32` bits at `p` accumulated into a C# `int` (`ReadBits`): a 32-bit read
      whose last bit is set is negative. */
  function IntBitsAt(s: seq<Bit>, p: int, n: nat): (r: Option<Read<int>>)
    requires n <= 32
    ensures r.Some? ==> IsInt32(r.value.value) && r.value.next == p + n
    ensures r.Some? && n < 32 ==> 0 <= r.value.value < Pow2(n)
  {
    if n == 0 then Some(Read(0, p))
    else if 0 <= p && p + n <= |s| then
      (SmallInt32Of(s[p..p + n]); Some(Read(Int32Of(s[p..p + n]), p + n)))
    else None
  }

  /** `DebugSkip`: one bit, then a 32-bit object id unless `oid` is -1. */
  function DebugSkipAt(s: seq<Bit>, p: int, oid: int): Option<int>
  {
    var flag :- BitAt(s, p);
    if oid != NoOid then
      var id :- IntBitsAt(s, flag.next, 32);
      Some(id.next)
    else Some(flag.next)
  }

  /** `ReadU32Packed`: a presence bit, then a 5-bit leading-zero count `lzc` and
      `32 - lzc` magnitude bits. The source's `vb > 0` guard always holds, because
      a 5-bit count is at most 31. */
  function U32PackedAt(s: seq<Bit>, p: int, oid: int): (r: Option<Read<nat>>)
    ensures r.Some? ==> r.value.value < TwoTo32
  {
    var q :- DebugSkipAt(s, p, oid);
    var present :- BitAt(s, q);
    if present.value == 0 then Some(Read(0, present.next))
    else
      var lzc :- IntBitsAt(s, present.next, 5);
      var vb: nat := 32 - lzc.value;
      var v :- BitsAt(s, lzc.next, vb);
      PowMono(vb, 32);
      Pow2Of32();
      Some(v)
  }

  /** `ReadI32Packed`: like the unsigned form with a sign bit after the presence
      bit; the magnitude is read as an `int` and negated with wrap-around
      (`-int.MinValue == int.MinValue`). */
  function I32PackedAt(s: seq<Bit>, p: int, oid: int): (r: Option<Read<int>>)
    ensures r.Some? ==> IsInt32(r.value.value)
  {
    var q :- DebugSkipAt(s, p, oid);
    var present :- BitAt(s, q);
    if present.value == 0 then Some(Read(0, present.next))
    else
      var sign :- BitAt(s, present.next);
      var lzc :- IntBitsAt(s, sign.next, 5);
      var v :- IntBitsAt(s, lzc.next, 32 - lzc.value);
      Some(Read(if sign.value != 0 then Wrap32(-v.value) else v.value, v.next))
  }

  /** `ReadU64Packed`: two unsigned packed halves, `(hi << 32) | lo` read as a `long`. */
  function U64PackedAt(s: seq<Bit>, p: int, oid: int): Option<Read<int>>
  {
    var q :- DebugSkipAt(s, p, oid);
    var lo :- U32PackedAt(s, q, NoOid);
    var hi :- U32PackedAt(s, lo.next, NoOid);
    Some(Read(ToInt64(hi.value * TwoTo32 + lo.value), hi.next))
  }

  /** `ReadBoolWrapped`: a debug skip, then one bit. */
  function BoolWrappedAt(s: seq<Bit>, p: int, oid: int): Option<Read<Bit>>
  {
    var q :- DebugSkipAt(s, p, oid);
    BitAt(s, q)
  }

  /** `ReadFloat`, as the raw 32-bit pattern of the float. */
  function FloatBitsAt(s: seq<Bit>, p: int, oid: int): Option<Read<nat>>
  {
    var q :- DebugSkipAt(s, p, oid);
    U32PackedAt(s, q, NoOid)
  }

  /** A character code below the surrogate range is a Dafny `char`. */
  function CodeUnit(v: int): char
    requires 0 <= v < 0xD800
  {
    v as char
  }

  /** `n` characters of `w` bits each, each offset by `base`, read front to back. */
  function CharsAt(s: seq<Bit>, p: int, n: nat, w: nat, base: nat): (r: Option<Read<string>>)
    requires w < 16 && base < 256
    ensures r.Some? ==> |r.value.value| == n
  {
    if n == 0 then Some(Read("", p))
    else
      var prefix :- CharsAt(s, p, n - 1, w, base);
      var c :- IntBitsAt(s, prefix.next, w);
      PowMono(w, 15);
      assert Pow2(15) == 0x8000 by { assert Pow2(8) == 256; Pow2Add(8, 7); }
      Some(Read(prefix.value + [CodeUnit(c.value + base)], c.next))
  }

  /** `ReadString`: a packed length; for a nonzero length a 4-bit character width,
      an 8-bit base character and the characters. A length of 2^31 or more faults
      at `new StringBuilder((int)length)`. */
  function StringAt(s: seq<Bit>, p: int, oid: int): Option<Read<string>>
  {
    var q :- DebugSkipAt(s, p, oid);
    var len :- U32PackedAt(s, q, NoOid);
    if len.value == 0 then Some(Read("", len.next))
    else
      var w :- IntBitsAt(s, len.next, 4);
      var base :- IntBitsAt(s, w.next, 8);
      if len.value >= TwoTo31 then None
      else CharsAt(s, base.next, len.value, w.value, base.value)
  }

  /** The optional parent tag of a chunk header: a flag bit, then 32 raw bits. */
  function ParentAt(s: seq<Bit>, p: int): Option<Read<Option<nat>>>
  {
    var flag :- BitAt(s, p);
    if flag.value != 0 then
      var raw :- BitsAt(s, flag.next, 32);
      Some(Read(Some(raw.value), raw.next))
    else Some(Read(None, flag.next))
  }

  /** The header `ReadChunkHeader` fills in. `DataEnd = DataStart + Size` is C#
      `int` arithmetic. */
  function HeaderOf(parent: Option<nat>, tag: nat, version: nat, subVersion: nat,
                    sizePos: int, size: int, dataStart: int): ChunkHeader
  {
    ChunkHeader(parent, tag, version, subVersion, sizePos, size, dataStart, Wrap32(dataStart + size))
  }

  /** `ReadChunkHeader`. */
  function ChunkHeaderAt(s: seq<Bit>, p: int): Option<Read<ChunkHeader>>
  {
    var parent :- ParentAt(s, p);
    var tag :- U32PackedAt(s, parent.next, NoOid);
    var version :- U32PackedAt(s, tag.next, NoOid);
    var subVersion :- U32PackedAt(s, version.next, NoOid);
    var size :- IntBitsAt(s, subVersion.next, 32);
    Some(Read(HeaderOf(parent.value, tag.value, version.value, subVersion.value,
                       subVersion.next, size.value, size.next),
              size.next))
  }

  /** `SkipChunk`: jump to `DataEnd`, read a flag bit and, when it is set, 32 more bits. */
  function SkipChunkAt(s: seq<Bit>, h: ChunkHeader): Option<int>
  {
    var flag :- BitAt(s, h.dataEnd);
    if flag.value != 0 then
      var trailer :- IntBitsAt(s, flag.next, 32);
      Some(trailer.next)
    else Some(flag.next)
  }

  /** The sub-chunk header `ReadChunkStart` fills in. */
  function SubHeaderOf(version: nat, subVersion: nat, val3: nat, size: int, dataStart: int): SubChunkHeader
  {
    SubChunkHeader(version, subVersion, val3, size, dataStart, Wrap32(dataStart + size))
  }

  /** `ReadChunkStart`: a debug skip, three packed values and a 32-bit size. */
  function ChunkStartAt(s: seq<Bit>, p: int, oid: int): (r: Option<Read<SubChunkHeader>>)
  {
    var q :- DebugSkipAt(s, p, oid);
    var version :- U32PackedAt(s, q, NoOid);
    var subVersion :- U32PackedAt(s, version.next, NoOid);
    var val3 :- U32PackedAt(s, subVersion.next, NoOid);
    var size :- IntBitsAt(s, val3.next, 32);
    Some(Read(SubHeaderOf(version.value, subVersion.value, val3.value, size.value, size.next), size.next))
  }

  // ---------------------------------------------------------------------------
  // Lemmas

  /** Fewer than 32 bits read as an `int` are never negative. */
  lemma SmallInt32Of(b: seq<Bit>)
    requires |b| <= 32
    ensures |b| < 32 ==> Int32Of(b) == Value(b) < Pow2(|b|)
  {
    ValueBound(b);
    if |b| < 32 {
      PowMono(|b|, 31);
      assert Pow2(32) == 2 * Pow2(31);
      Pow2Of32();
    }
  }

  /** A string body that decodes in full has every shorter prefix decodable. */
  lemma {:induction false} CharsPrefix(s: seq<Bit>, p: int, n: nat, w: nat, base: nat, i: nat)
    requires w < 16 && base < 256
    requires CharsAt(s, p, n, w, base).Some? && i <= n
    ensures CharsAt(s, p, i, w, base).Some?
  {
    if i < n {
      CharsPrefix(s, p, n - 1, w, base, i);
    }
  }

  /** Another character of a string body follows a decoded prefix of it. */
  lemma CharsNext(s: seq<Bit>, p: int, n: nat, w: nat, base: nat, i: nat, str: string, q: int)
    requires w < 16 && base < 256
    requires CharsAt(s, p, n, w, base).Some? && i < n
    requires CharsAt(s, p, i, w, base) == Some(Read(str, q))
    ensures IntBitsAt(s, q, w).Some?
  {
    CharsPrefix(s, p, n, w, base, i + 1);
  }

  /** One more bit read after the first `i` bits at `p`. */
  lemma BitStep(s: seq<Bit>, p: int, i: nat, read: seq<Bit>, bit: Bit)
    requires |read| == i && (i > 0 ==> 0 <= p && p + i <= |s| && read == s[p..p + i])
    requires BitAt(s, p + i) == Some(Read(bit, p + i + 1))
    ensures 0 <= p && read + [bit] == s[p..p + i + 1]
    ensures Value(read + [bit]) == Value(read) + bit * Pow2(i)
  {
    ValueAppend(read, bit);
  }

  /** `n` accumulated bits as the unsigned and the `int` read. */
  lemma BitsFrom(s: seq<Bit>, p: int, n: nat, read: seq<Bit>)
    requires |read| == n
    requires n > 0 ==> 0 <= p && p + n <= |s| && read == s[p..p + n]
    ensures BitsAt(s, p, n) == Some(Read(Value(read), p + n))
    ensures n <= 32 ==> Value(read) < TwoTo32 && IntBitsAt(s, p, n) == Some(Read(ToInt32(Value(read)), p + n))
  {
    ValueBound(read);
    if n <= 32 {
      PowMono(n, 32);
      Pow2Of32();
    }
    if n == 0 {
      assert read == [];
    }
  }

  /** The accumulated bits of a finished `ReadBits`/`ReadBitsU` loop, as the decoders see them. */
  lemma AccFrom(s: seq<Bit>, p: int, n: nat, read: seq<Bit>)
    requires |read| == n
    requires n > 0 ==> 0 <= p && p + n <= |s| && read == s[p..p + n]
    ensures n <= 32 ==> BitsAt(s, p, n) == Some(Read(UIntAcc(read), p + n))
    ensures n <= 32 ==> IntBitsAt(s, p, n) == Some(Read(IntAcc(read), p + n))
  {
    if n <= 32 {
      BitsFrom(s, p, n, read);
      UIntAccValue(read);
      IntAccIsInt32Of(read);
    }
  }

  lemma CharsStep(s: seq<Bit>, p: int, i: nat, w: nat, base: nat, str: string, q: int, c: int, next: int)
    requires w < 16 && base < 256
    requires CharsAt(s, p, i, w, base) == Some(Read(str, q))
    requires IntBitsAt(s, q, w) == Some(Read(c, next))
    ensures 0 <= c + base < 0xD800
    ensures CharsAt(s, p, i + 1, w, base) == Some(Read(str + [CodeUnit(c + base)], next))
  {
    PowMono(w, 15);
    assert Pow2(15) == 0x8000 by { assert Pow2(8) == 256; Pow2Add(8, 7); }
  }

  // Step lemmas: a composite decoder in terms of the results of its parts, in
  // the order the reader performs them.

  lemma U32PackedFrom(s: seq<Bit>, p: int, lzc: int, vb: nat, v: nat)
    requires 0 <= p && p + 2 <= |s| && s[p + 1] == 1 && 0 <= lzc < 32 && vb == 32 - lzc
    requires IntBitsAt(s, p + 2, 5) == Some(Read(lzc, p + 7))
    requires BitsAt(s, p + 7, vb) == Some(Read(v, p + 7 + vb))
    ensures U32PackedAt(s, p, NoOid) == Some(Read(v, p + 7 + vb))
  {
  }

  lemma I32PackedFrom(s: seq<Bit>, p: int, oid: int, q: int, sign: Read<Bit>, lzc: Read<int>, vb: nat, v: Read<int>)
    requires DebugSkipAt(s, p, oid) == Some(q) && BitAt(s, q) == Some(Read(1, q + 1))
    requires BitAt(s, q + 1) == Some(sign) && IntBitsAt(s, sign.next, 5) == Some(lzc)
    requires vb == 32 - lzc.value && IntBitsAt(s, lzc.next, vb) == Some(v)
    ensures I32PackedAt(s, p, oid) == Some(Read(if sign.value != 0 then Wrap32(-v.value) else v.value, v.next))
  {
  }

  lemma U64PackedFrom(s: seq<Bit>, p: int, oid: int, q: int, lo: Read<nat>, hi: Read<nat>)
    requires DebugSkipAt(s, p, oid) == Some(q)
    requires U32PackedAt(s, q, NoOid) == Some(lo) && U32PackedAt(s, lo.next, NoOid) == Some(hi)
    ensures lo.value < TwoTo32 && hi.value < TwoTo32
    ensures U64PackedAt(s, p, oid) == Some(Read(ToInt64(hi.value * TwoTo32 + lo.value), hi.next))
  {
  }

  /** What a decodable string with a nonzero length holds after its length. */
  lemma StringParts(s: seq<Bit>, p: int, oid: int, q: int, len: Read<nat>)
    requires StringAt(s, p, oid).Some?
    requires DebugSkipAt(s, p, oid) == Some(q) && U32PackedAt(s, q, NoOid) == Some(len) && len.value > 0
    ensures len.value < TwoTo31
    ensures var w := IntBitsAt(s, len.next, 4);
      w.Some? && 0 <= w.value.value < 16 &&
      var base := IntBitsAt(s, w.value.next, 8);
      base.Some? && 0 <= base.value.value < 256 &&
      CharsAt(s, base.value.next, len.value, w.value.value, base.value.value).Some?
  {
    assert Pow2(4) == 16 && Pow2(8) == 256;
  }

  lemma StringFrom(s: seq<Bit>, p: int, oid: int, q: int, len: Read<nat>, w: Read<int>, base: Read<int>, chars: Read<string>)
    requires DebugSkipAt(s, p, oid) == Some(q) && U32PackedAt(s, q, NoOid) == Some(len)
    requires 0 < len.value < TwoTo31
    requires IntBitsAt(s, len.next, 4) == Some(w) && IntBitsAt(s, w.next, 8) == Some(base)
    requires 0 <= w.value < 16 && 0 <= base.value < 256
    requires CharsAt(s, base.next, len.value, w.value, base.value) == Some(chars)
    ensures StringAt(s, p, oid) == Some(chars)
  {
  }

  lemma ChunkHeaderFrom(s: seq<Bit>, p: int, parent: Option<nat>, afterParent: int, tag: nat, afterTag: int,
                        version: nat, afterVersion: int, subVersion: nat, sizePos: int, size: int, dataStart: int)
    requires ParentAt(s, p) == Some(Read(parent, afterParent))
    requires U32PackedAt(s, afterParent, NoOid) == Some(Read(tag, afterTag))
    requires U32PackedAt(s, afterTag, NoOid) == Some(Read(version, afterVersion))
    requires U32PackedAt(s, afterVersion, NoOid) == Some(Read(subVersion, sizePos))
    requires IntBitsAt(s, sizePos, 32) == Some(Read(size, dataStart))
    ensures ChunkHeaderAt(s, p) == Some(Read(HeaderOf(parent, tag, version, subVersion, sizePos, size, dataStart), dataStart))
  {
  }

  lemma ChunkStartFrom(s: seq<Bit>, p: int, oid: int, q: int, version: nat, afterVersion: int, subVersion: nat,
                       afterSubVersion: int, val3: nat, afterVal3: int, size: int, dataStart: int)
    requires DebugSkipAt(s, p, oid) == Some(q) && U32PackedAt(s, q, NoOid) == Some(Read(version, afterVersion))
    requires U32PackedAt(s, afterVersion, NoOid) == Some(Read(subVersion, afterSubVersion))
    requires U32PackedAt(s, afterSubVersion, NoOid) == Some(Read(val3, afterVal3))
    requires IntBitsAt(s, afterVal3, 32) == Some(Read(size, dataStart))
    ensures ChunkStartAt(s, p, oid) == Some(Read(SubHeaderOf(version, subVersion, val3, size, dataStart), dataStart))
  {
  }

  // ---------------------------------------------------------------------------
  // Layout: how many bits each field takes and where its value comes from

  /** `DebugSkip` consumes one bit, or 33 with an id, whatever their values. */
  lemma DebugSkipLayout(s: seq<Bit>, p: int, oid: int)
    ensures var n := if oid == NoOid then 1 else 33;
      DebugSkipAt(s, p, oid) == if 0 <= p && p + n <= |s| then Some(p + n) else None
  {
  }

  /** An unsigned packed value after a one-bit debug skip: an absent value is two
      bits; a present one is `2 + 5 + (32 - lzc)` bits holding a value below
      `2^(32 - lzc)`. */
  lemma U32PackedLayout(s: seq<Bit>, p: int)
    requires U32PackedAt(s, p, NoOid).Some?
    ensures 0 <= p && p + 2 <= |s|
    ensures var r := U32PackedAt(s, p, NoOid).value;
      if s[p + 1] == 0 then r == Read(0, p + 2)
      else
        p + 7 <= |s| &&
        var lzc := Value(s[p + 2..p + 7]);
        lzc < 32 && r.next == p + 7 + (32 - lzc) <= |s| &&
        r.value == Value(s[p + 7..r.next]) < Pow2(32 - lzc)
  {
    if s[p + 1] != 0 {
      SmallInt32Of(s[p + 2..p + 7]);
      assert Pow2(5) == 32;
    }
  }

  /** A signed packed value after a one-bit debug skip: an absent value is two
      bits and reads no sign; a present one has its sign at `p + 2` and
      `3 + 5 + (32 - lzc)` bits, and a set sign negates the magnitude. */
  lemma I32PackedLayout(s: seq<Bit>, p: int)
    requires I32PackedAt(s, p, NoOid).Some?
    ensures 0 <= p && p + 2 <= |s|
    ensures var r := I32PackedAt(s, p, NoOid).value;
      if s[p + 1] == 0 then r == Read(0, p + 2)
      else
        p + 8 <= |s| &&
        var lzc := Value(s[p + 3..p + 8]);
        lzc < 32 && r.next == p + 8 + (32 - lzc) <= |s| &&
        var m := Int32Of(s[p + 8..r.next]);
        r.value == if s[p + 2] == 1 then Wrap32(-m) else m
  {
    if s[p + 1] != 0 {
      SmallInt32Of(s[p + 3..p + 8]);
      assert Pow2(5) == 32;
    }
  }

  /** `n` characters of `w` bits take `n * w` bits. */
  lemma {:induction false} CharsEnd(s: seq<Bit>, p: int, n: nat, w: nat, base: nat)
    requires w < 16 && base < 256
    requires CharsAt(s, p, n, w, base).Some?
    ensures CharsAt(s, p, n, w, base).value.next == p + n * w
  {
    if n > 0 {
      CharsEnd(s, p, n - 1, w, base);
      assert p + (n - 1) * w + w == p + n * w;
    }
  }

  /** The last of `n` characters is the `w` bits at `at == p + (n - 1) * w`,
      after the first `n - 1`. */
  lemma CharsLast(s: seq<Bit>, p: int, n: nat, w: nat, base: nat, at: int)
    requires w < 16 && base < 256
    requires CharsAt(s, p, n, w, base).Some? && n > 0 && at == p + (n - 1) * w
    ensures var prefix := CharsAt(s, p, n - 1, w, base);
      var c := IntBitsAt(s, at, w);
      prefix.Some? && c.Some? && 0 <= c.value.value + base < 0xD800 &&
      CharsAt(s, p, n, w, base).value.value == prefix.value.value + [CodeUnit(c.value.value + base)]
  {
    CharsEnd(s, p, n - 1, w, base);
    var prefix := CharsAt(s, p, n - 1, w, base).value;
    assert prefix.next == at;
    var c := IntBitsAt(s, at, w).value;
    CharsStep(s, p, n - 1, w, base, prefix.value, at, c.value, c.next);
  }

  /** Character `i` is the `w` bits at `p + i * w` read as an `int`, plus `base`. */
  lemma {:induction false} CharsElement(s: seq<Bit>, p: int, n: nat, w: nat, base: nat, i: nat)
    requires w < 16 && base < 256
    requires CharsAt(s, p, n, w, base).Some? && i < n
    ensures var c := IntBitsAt(s, p + i * w, w);
      c.Some? && 0 <= c.value.value + base < 0xD800 &&
      CharsAt(s, p, n, w, base).value.value[i] == CodeUnit(c.value.value + base)
  {
    if i < n - 1 {
      CharsLast(s, p, n, w, base, p + (n - 1) * w);
      CharsElement(s, p, n - 1, w, base, i);
    } else {
      CharsLast(s, p, n, w, base, p + i * w);
    }
  }

  /** A string of length 0 is the empty string and nothing follows its length;
      otherwise it holds exactly `length` characters of `w` bits each. */
  lemma StringLayout(s: seq<Bit>, p: int, oid: int)
    requires StringAt(s, p, oid).Some?
    ensures var q := DebugSkipAt(s, p, oid).value;
      var len := U32PackedAt(s, q, NoOid).value;
      var r := StringAt(s, p, oid).value;
      if len.value == 0 then r == Read("", len.next)
      else
        var w := IntBitsAt(s, len.next, 4).value;
        var base := IntBitsAt(s, w.next, 8).value;
        |r.value| == len.value && r.next == base.next + len.value * w.value
  {
    var q := DebugSkipAt(s, p, oid).value;
    var len := U32PackedAt(s, q, NoOid).value;
    if len.value != 0 {
      StringParts(s, p, oid, q, len);
      var w := IntBitsAt(s, len.next, 4).value;
      var base := IntBitsAt(s, w.next, 8).value;
      CharsEnd(s, base.next, len.value, w.value, base.value);
    }
  }

  /** A nonempty `int` read covers `n` bits of the stream and is their `int` value. */
  lemma IntBitsLayout(s: seq<Bit>, p: int, n: nat, r: Read<int>)
    requires 0 < n <= 32 && IntBitsAt(s, p, n) == Some(r)
    ensures 0 <= p && r.next == p + n <= |s| && r.value == Int32Of(s[p..p + n])
  {
  }

  /** A chunk header ends where its data starts. */
  lemma HeaderEndsAtData(s: seq<Bit>, p: int)
    ensures ChunkHeaderAt(s, p).Some? ==> ChunkHeaderAt(s, p).value.value.dataStart == ChunkHeaderAt(s, p).value.next
  {
  }

  /** `SkipChunk` stops one bit after `DataEnd` when the bit there is 0, else 33. */
  lemma SkipChunkLayout(s: seq<Bit>, h: ChunkHeader)
    requires SkipChunkAt(s, h).Some?
    ensures 0 <= h.dataEnd < |s|
    ensures SkipChunkAt(s, h) == Some(if s[h.dataEnd] == 0 then h.dataEnd + 1 else h.dataEnd + 33)
  {
  }

  /** A string field, debug skip included, takes at least two bits. */
  lemma StringAdvances(s: seq<Bit>, p: int, oid: int)
    requires StringAt(s, p, oid).Some?
    ensures p + 2 <= StringAt(s, p, oid).value.next
  {
    DebugSkipLayout(s, p, oid);
    var q := DebugSkipAt(s, p, oid).value;
    U32PackedLayout(s, q);
    var len := U32PackedAt(s, q, NoOid).value;
    StringLayout(s, p, oid);
    if len.value != 0 {
      var w := IntBitsAt(s, len.next, 4).value;
      var base := IntBitsAt(s, w.next, 8).value;
      assert base.next == len.next + 12;
      NonNegativeProduct(len.value, w.value);
    }
  }

  lemma NonNegativeProduct(a: nat, b: nat)
    ensures a * b >= 0
  {
  }

  // ---------------------------------------------------------------------------
  // Repetition: a decoder applied `n` times, each read starting where the last ended

  function Repeat<T>(f: int -> Option<Read<T>>, p: int, n: nat): (r: Option<Read<seq<T>>>)
    ensures r.Some? ==> |r.value.value| == n
  {
    if n == 0 then Some(Read([], p))
    else
      var front :- Repeat(f, p, n - 1);
      var x :- f(front.next);
      Some(Read(front.value + [x.value], x.next))
  }

  /** A repetition that succeeds `n` times succeeded the first `i + 1` times,
      the last of them reading at the end of the first `i`. */
  lemma {:induction false} RepeatNext<T>(f: int -> Option<Read<T>>, p: int, n: nat, i: nat)
    requires i < n && Repeat(f, p, n).Some?
    ensures Repeat(f, p, i).Some?
    ensures var front := Repeat(f, p, i).value;
      f(front.next).Some? &&
      Repeat(f, p, i + 1) == Some(Read(front.value + [f(front.next).value.value], f(front.next).value.next))
  {
    if i + 1 < n {
      RepeatNext(f, p, n - 1, i);
    }
  }

  /** When each read lies strictly between its start and its end (`lo` to `hi`
      inside it), the elements of a repetition lie strictly inside it, one after
      the other and without overlap. */
  lemma {:induction false} RepeatSpans<T>(f: int -> Option<Read<T>>, lo: T -> int, hi: T -> int, p: int, n: nat)
    requires forall q :: f(q).Some? ==> q < lo(f(q).value.value) <= hi(f(q).value.value) < f(q).value.next
    requires Repeat(f, p, n).Some?
    ensures var r := Repeat(f, p, n).value;
      p <= r.next &&
      (forall i :: 0 <= i < n ==> p < lo(r.value[i]) && hi(r.value[i]) < r.next) &&
      (forall i, j :: 0 <= i < j < n ==> hi(r.value[i]) < lo(r.value[j]))
  {
    if n > 0 {
      RepeatNext(f, p, n, n - 1);
      RepeatSpans(f, lo, hi, p, n - 1);
      var front := Repeat(f, p, n - 1).value;
      var x := f(front.next).value;
      var r := Repeat(f, p, n).value;
      assert r.value == front.value + [x.value];
      assert forall i :: 0 <= i < n - 1 ==> r.value[i] == front.value[i];
    }
  }

  /** A property every single read has holds of every element of a repetition. */
  lemma {:induction false} RepeatAll<T>(f: int -> Option<Read<T>>, P: T -> bool, p: int, n: nat)
    requires forall q :: f(q).Some? ==> P(f(q).value.value)
    requires Repeat(f, p, n).Some?
    ensures forall i :: 0 <= i < n ==> P(Repeat(f, p, n).value.value[i])
  {
    if n > 0 {
      RepeatNext(f, p, n, n - 1);
      RepeatAll(f, P, p, n - 1);
      var front := Repeat(f, p, n - 1).value;
      assert Repeat(f, p, n).value.value == front.value + [f(front.next).value.value];
    }
  }

  // ---------------------------------------------------------------------------
  // Frames: a read that ends by `lo` sees only the bits before `lo`

  /** `w` has the length of `s` and the same bits before `lo`. */
  ghost predicate SameBefore(s: seq<Bit>, w: seq<Bit>, lo: int)
  {
    |w| == |s| && 0 <= lo <= |s| && s[..lo] == w[..lo]
  }

  /** Plain reads of bits before `lo` agree. */
  lemma BitsFrame(s: seq<Bit>, w: seq<Bit>, lo: int, p: int, n: nat)
    requires SameBefore(s, w, lo) && 0 <= p && p + n <= lo
    ensures BitsAt(w, p, n) == BitsAt(s, p, n)
    ensures n <= 32 ==> IntBitsAt(w, p, n) == IntBitsAt(s, p, n)
    ensures n == 1 ==> BitAt(w, p) == BitAt(s, p)
  {
    assert w[p..p + n] == w[..lo][p..p + n] == s[..lo][p..p + n] == s[p..p + n];
    if n == 1 {
      assert w[p] == w[p..p + n][0];
    }
  }

  /** A debug skip that ends by `lo` agrees. */
  lemma DebugSkipFrame(s: seq<Bit>, w: seq<Bit>, lo: int, p: int, oid: int)
    requires SameBefore(s, w, lo) && DebugSkipAt(s, p, oid).Some? && DebugSkipAt(s, p, oid).value <= lo
    ensures DebugSkipAt(w, p, oid) == DebugSkipAt(s, p, oid)
  {
    DebugSkipLayout(s, p, oid);
    DebugSkipLayout(w, p, oid);
  }

  /** An unsigned packed read that ends by `lo` agrees. */
  lemma U32PackedFrame(s: seq<Bit>, w: seq<Bit>, lo: int, p: int)
    requires SameBefore(s, w, lo) && U32PackedAt(s, p, NoOid).Some? && U32PackedAt(s, p, NoOid).value.next <= lo
    ensures U32PackedAt(w, p, NoOid) == U32PackedAt(s, p, NoOid)
  {
    U32PackedLayout(s, p);
    DebugSkipFrame(s, w, lo, p, NoOid);
    BitsFrame(s, w, lo, p + 1, 1);
    if s[p + 1] == 1 {
      BitsFrame(s, w, lo, p + 2, 5);
      var lzc := IntBitsAt(s, p + 2, 5).value;
      BitsFrame(s, w, lo, p + 7, 32 - lzc.value);
    }
  }

  /** A signed packed read that ends by `lo` agrees. */
  lemma I32PackedFrame(s: seq<Bit>, w: seq<Bit>, lo: int, p: int, oid: int)
    requires SameBefore(s, w, lo) && I32PackedAt(s, p, oid).Some? && I32PackedAt(s, p, oid).value.next <= lo
    ensures I32PackedAt(w, p, oid) == I32PackedAt(s, p, oid)
  {
    var q := DebugSkipAt(s, p, oid).value;
    DebugSkipLayout(s, p, oid);
    DebugSkipFrame(s, w, lo, p, oid);
    BitsFrame(s, w, lo, q, 1);
    if s[q] == 1 {
      PresentFrame(s, w, lo, p, oid, q);
    }
  }

  /** `I32PackedFrame` for a present value, once the debug skip agrees. */
  lemma PresentFrame(s: seq<Bit>, w: seq<Bit>, lo: int, p: int, oid: int, q: int)
    requires SameBefore(s, w, lo) && I32PackedAt(s, p, oid).Some? && I32PackedAt(s, p, oid).value.next <= lo
    requires DebugSkipAt(s, p, oid) == Some(q) && DebugSkipAt(w, p, oid) == Some(q)
    requires BitAt(s, q) == Some(Read(1, q + 1)) && BitAt(w, q) == Some(Read(1, q + 1))
    ensures I32PackedAt(w, p, oid) == I32PackedAt(s, p, oid)
  {
    var sign := BitAt(s, q + 1).value;
    var lzc := IntBitsAt(s, sign.next, 5).value;
    var v := IntBitsAt(s, lzc.next, 32 - lzc.value).value;
    I32PackedFrom(s, p, oid, q, sign, lzc, 32 - lzc.value, v);
    BitsFrame(s, w, lo, q + 1, 1);
    BitsFrame(s, w, lo, sign.next, 5);
    BitsFrame(s, w, lo, lzc.next, 32 - lzc.value);
    I32PackedFrom(w, p, oid, q, sign, lzc, 32 - lzc.value, v);
  }

  /** A chunk header that ends by `lo` agrees. */
  lemma ChunkHeaderFrame(s: seq<Bit>, w: seq<Bit>, lo: int, p: int)
    requires SameBefore(s, w, lo) && ChunkHeaderAt(s, p).Some? && ChunkHeaderAt(s, p).value.next <= lo
    ensures ChunkHeaderAt(w, p) == ChunkHeaderAt(s, p)
  {
    var parent := ParentAt(s, p).value;
    var tag := U32PackedAt(s, parent.next, NoOid).value;
    var version := U32PackedAt(s, tag.next, NoOid).value;
    var subVersion := U32PackedAt(s, version.next, NoOid).value;
    var size := IntBitsAt(s, subVersion.next, 32).value;
    ChunkHeaderFrom(s, p, parent.value, parent.next, tag.value, tag.next, version.value, version.next,
                    subVersion.value, subVersion.next, size.value, size.next);
    ParentFrame(s, w, lo, p);
    U32PackedLayout(s, parent.next);
    U32PackedLayout(s, tag.next);
    U32PackedLayout(s, version.next);
    U32PackedFrame(s, w, lo, parent.next);
    U32PackedFrame(s, w, lo, tag.next);
    U32PackedFrame(s, w, lo, version.next);
    BitsFrame(s, w, lo, subVersion.next, 32);
    ChunkHeaderFrom(w, p, parent.value, parent.next, tag.value, tag.next, version.value, version.next,
                    subVersion.value, subVersion.next, size.value, size.next);
  }

  /** A parent tag that ends by `lo` agrees. */
  lemma ParentFrame(s: seq<Bit>, w: seq<Bit>, lo: int, p: int)
    requires SameBefore(s, w, lo) && ParentAt(s, p).Some? && ParentAt(s, p).value.next <= lo
    ensures ParentAt(w, p) == ParentAt(s, p)
  {
    BitsFrame(s, w, lo, p, 1);
    if s[p] == 1 {
      BitsFrame(s, w, lo, p + 1, 32);
    }
  }

  /** A chunk skip that ends by `lo` agrees. */
  lemma SkipChunkFrame(s: seq<Bit>, w: seq<Bit>, lo: int, h: ChunkHeader)
    requires SameBefore(s, w, lo) && SkipChunkAt(s, h).Some? && SkipChunkAt(s, h).value <= lo
    ensures SkipChunkAt(w, h) == SkipChunkAt(s, h)
  {
    SkipChunkLayout(s, h);
    BitsFrame(s, w, lo, h.dataEnd, 1);
    if s[h.dataEnd] == 1 {
      BitsFrame(s, w, lo, h.dataEnd + 1, 32);
    }
  }
}
