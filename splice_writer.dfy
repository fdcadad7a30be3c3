/** The second half of `ModifyResources`: a zeroed buffer of the new length is
    filled by copying the unchanged runs of the old stream and writing each
    patch's new bits, the size fields are moved by the total delta, and the
    new byte length is stamped into the first four bytes. */
module SpliceWriter {
  import opened Wrappers
  import opened BitMath
  import opened BitWriter
  import opened StreamFormat
  import opened PackedEncoding
  import opened ResourcePatch
  import opened ResourceTable

  // ---------------------------------------------------------------------------
  // Bytes and bits

  /** The bits of two byte runs side by side are the two runs of bits. */
  lemma BitsAppend(a: seq<byte>, b: seq<byte>)
    ensures Bits(a + b) == Bits(a) + Bits(b)
  {
    var ab := a + b;
    forall p | 0 <= p < 8 * |ab|
      ensures Bits(ab)[p] == (Bits(a) + Bits(b))[p]
    {
      if p >= 8 * |a| {
        var q := p - 8 * |a|;
        assert p / 8 == q / 8 + |a| && p % 8 == q % 8;
      }
    }
  }

  /** Dropping four bytes drops 32 bits. */
  lemma BitsDrop(x: seq<byte>)
    requires |x| >= 4
    ensures Bits(x)[32..] == Bits(x[4..])
  {
    BitsAppend(x[..4], x[4..]);
    assert x[..4] + x[4..] == x;
  }

  lemma {:induction false} BitOfZero(i: nat)
    ensures BitOf(0, i) == 0
  {
    if i > 0 {
      BitOfZero(i - 1);
    }
  }

  /** A buffer of zero bytes is a run of zero bits. */
  lemma ZeroBytes(d: seq<byte>)
    requires forall i :: 0 <= i < |d| ==> d[i] == 0
    ensures Bits(d) == Zeros(8 * |d|)
  {
    forall p | 0 <= p < 8 * |d|
      ensures Bits(d)[p] == 0
    {
      BitOfZero(p % 8);
    }
  }

  /** Writing `w` where a run of zeros begins leaves the rest of the zeros. */
  lemma OverwriteZeros(front: seq<Bit>, m: nat, w: seq<Bit>)
    requires |w| <= m
    ensures Overwrite(front + Zeros(m), |front|, w) == front + w + Zeros(m - |w|)
  {
    var s := front + Zeros(m);
    assert s[..|front|] == front;
    assert s[|front| + |w|..] == Zeros(m - |w|);
  }

  // ---------------------------------------------------------------------------
  // The copy loop

  /** The `SetBit` loop that writes a patch's new bits at `at`. */
  method WriteNewBits(data: array<byte>, at: int, bits: seq<Bit>)
    requires 0 <= at && at + |bits| <= 8 * data.Length
    modifies data
    ensures Bits(data[..]) == Overwrite(Bits(old(data[..])), at, bits)
  {
    ghost var orig := Bits(data[..]);
    var i := 0;
    while i < |bits|
      invariant 0 <= i <= |bits|
      invariant Bits(data[..]) == Overwrite(orig, at, bits[..i])
    {
      OverwriteExtend(orig, at, bits[..i], bits[i]);
      assert bits[..i] + [bits[i]] == bits[..i + 1];
      assert (if bits[i] != 0 then 1 else 0) == bits[i];
      SetBit(data, at + i, bits[i]);
      i := i + 1;
    }
    assert bits[..|bits|] == bits;
  }

  /** Whatever the first `k` rounds wrote fits in the spliced stream. */
  lemma ProducedWithin(s: seq<Bit>, ps: seq<Patch>, k: nat)
    requires Chained(ps, |s|) && k <= |ps|
    ensures |Produced(s, ps, k)| <= |Spliced(s, ps)|
  {
    ProducedGrows(s, ps, k, |ps|);
  }

  /** One round of the copy loop: the unchanged run up to patch `k`, then its
      new bits; `srcPos` skips the old encoding. `s` is the old stream. */
  method SplicePatch(data: array<byte>, newData: array<byte>, ghost s: seq<Bit>, ps: seq<Patch>, k: nat, srcPos: int, dstPos: int)
    returns (srcPos': int, dstPos': int)
    requires data != newData && s == Bits(data[..]) && Chained(ps, |s|) && k < |ps|
    requires |Spliced(s, ps)| <= 8 * newData.Length
    requires srcPos == SrcAfter(ps, k) && dstPos == |Produced(s, ps, k)| <= 8 * newData.Length
    requires Bits(newData[..]) == Produced(s, ps, k) + Zeros(8 * newData.Length - dstPos)
    modifies newData
    ensures srcPos' == SrcAfter(ps, k + 1) && dstPos' == |Produced(s, ps, k + 1)| <= 8 * newData.Length
    ensures Bits(newData[..]) == Produced(s, ps, k + 1) + Zeros(8 * newData.Length - dstPos')
  {
    ghost var n := 8 * newData.Length;
    ghost var before := Produced(s, ps, k);
    ghost var gap := s[srcPos..ps[k].pos];
    var w := ps[k].newBits;
    assert Produced(s, ps, k + 1) == before + gap + w;
    ProducedWithin(s, ps, k + 1);
    var count := ps[k].pos - srcPos;
    CopyBits(data, srcPos, newData, dstPos, count);
    assert s[srcPos..srcPos + count] == gap;
    OverwriteZeros(before, n - dstPos, gap);
    ghost var mid := before + gap;
    assert Bits(newData[..]) == mid + Zeros(n - dstPos - count);
    dstPos' := dstPos + count;
    srcPos' := ps[k].pos;
    WriteNewBits(newData, dstPos', w);
    OverwriteZeros(mid, n - dstPos', w);
    dstPos' := dstPos' + |w|;
    srcPos' := srcPos' + ps[k].oldLen;
  }

  /** The copy loop of `ModifyResources` and the copy of the tail: a zeroed
      buffer receives the spliced stream, followed by zero padding. */
  method SplicePatches(data: array<byte>, newData: array<byte>, ps: seq<Patch>)
    requires data != newData && Chained(ps, 8 * data.Length)
    requires |Spliced(Bits(data[..]), ps)| <= 8 * newData.Length
    requires Bits(newData[..]) == Zeros(8 * newData.Length)
    modifies newData
    ensures var out := Spliced(Bits(data[..]), ps);
      Bits(newData[..]) == out + Zeros(8 * newData.Length - |out|)
  {
    ghost var s := Bits(data[..]);
    ghost var n := 8 * newData.Length;
    var srcPos, dstPos := 0, 0;
    var k := 0;
    while k < |ps|
      invariant 0 <= k <= |ps|
      invariant srcPos == SrcAfter(ps, k) && dstPos == |Produced(s, ps, k)| <= n
      invariant Bits(newData[..]) == Produced(s, ps, k) + Zeros(n - dstPos)
    {
      srcPos, dstPos := SplicePatch(data, newData, s, ps, k, srcPos, dstPos);
      k := k + 1;
    }
    SpliceTail(data, newData, s, ps, srcPos, dstPos);
  }

  /** The copy of the tail after the last patch. */
  method SpliceTail(data: array<byte>, newData: array<byte>, ghost s: seq<Bit>, ps: seq<Patch>, srcPos: int, dstPos: int)
    requires data != newData && s == Bits(data[..]) && Chained(ps, |s|)
    requires |Spliced(s, ps)| <= 8 * newData.Length
    requires srcPos == SrcAfter(ps, |ps|) && dstPos == |Produced(s, ps, |ps|)| <= 8 * newData.Length
    requires Bits(newData[..]) == Produced(s, ps, |ps|) + Zeros(8 * newData.Length - dstPos)
    modifies newData
    ensures var out := Spliced(s, ps);
      Bits(newData[..]) == out + Zeros(8 * newData.Length - |out|)
  {
    ghost var n := 8 * newData.Length;
    ghost var front := Produced(s, ps, |ps|);
    ghost var tail := s[srcPos..];
    assert Spliced(s, ps) == front + tail;
    CopyBits(data, srcPos, newData, dstPos, 8 * data.Length - srcPos);
    assert s[srcPos..srcPos + (8 * data.Length - srcPos)] == tail;
    OverwriteZeros(front, n - dstPos, tail);
  }

  // ---------------------------------------------------------------------------
  // The size fields

  /** Every size field lies in both the old stream and the new buffer. */
  ghost predicate SizesFit(positions: seq<int>, total: int, newTotal: int)
  {
    forall i :: 0 <= i < |positions| ==> 0 <= positions[i] && positions[i] + 32 <= total && positions[i] + 32 <= newTotal
  }

  /** The value a size field gets: the old 32 bits read as an `int`, plus
      `delta` in unchecked `int` arithmetic. */
  function MovedSize(s: seq<Bit>, p: int, delta: int): int
    requires 0 <= p && p + 32 <= |s|
  {
    Wrap32(Int32Of(s[p..p + 32]) + delta)
  }

  /** The buffer `b` after the size-field loop: each field at `positions`, in
      order, is overwritten with the old stream's value there moved by `delta`. */
  function FixSizes(s: seq<Bit>, b: seq<Bit>, positions: seq<int>, delta: int): (r: seq<Bit>)
    requires SizesFit(positions, |s|, |b|)
    ensures |r| == |b|
  {
    if positions == [] then b
    else
      var p := positions[|positions| - 1];
      Overwrite(FixSizes(s, b, positions[..|positions| - 1], delta), p, PatternWindow(Pattern32(MovedSize(s, p, delta)), 32))
  }

  /** The `foreach` over the size positions: read the old size from `data`,
      add the total delta, write it into `newData` at the same position. */
  method FixSizeFields(data: array<byte>, newData: array<byte>, positions: seq<int>, delta: int)
    requires data != newData && IsInt32(delta)
    requires SizesFit(positions, 8 * data.Length, 8 * newData.Length)
    modifies newData
    ensures Bits(newData[..]) == FixSizes(Bits(data[..]), Bits(old(newData[..])), positions, delta)
  {
    ghost var bytes := data[..];
    ghost var s := Bits(bytes);
    ghost var b := Bits(newData[..]);
    var i := 0;
    while i < |positions|
      invariant 0 <= i <= |positions| && data[..] == bytes
      invariant Bits(newData[..]) == FixSizes(s, b, positions[..i], delta)
    {
      var oldSize := ReadBitsAt(data, positions[i], 32);
      var newSize := Wrap32(oldSize + delta);
      ghost var before := Bits(newData[..]);
      WriteBits(newData, positions[i], newSize, 32);
      FixSizesStep(s, b, positions, delta, i, oldSize, before, Bits(newData[..]));
      i := i + 1;
    }
    assert positions[..|positions|] == positions;
  }

  /** One more round of the size-field loop overwrites field `i` with the
      old value there plus `delta`. */
  lemma FixSizesStep(s: seq<Bit>, b: seq<Bit>, positions: seq<int>, delta: int, i: nat,
                     oldSize: int, before: seq<Bit>, after: seq<Bit>)
    requires SizesFit(positions, |s|, |b|) && i < |positions|
    requires oldSize == Int32Of(s[positions[i]..positions[i] + 32])
    requires SizesFit(positions[..i], |s|, |b|) && before == FixSizes(s, b, positions[..i], delta)
    requires after == Overwrite(before, positions[i], PatternWindow(Pattern32(Wrap32(oldSize + delta)), 32))
    ensures SizesFit(positions[..i + 1], |s|, |b|) && after == FixSizes(s, b, positions[..i + 1], delta)
  {
    assert positions[..i + 1][..i] == positions[..i];
  }

  // ---------------------------------------------------------------------------
  // The length stamp

  /** `BitConverter.GetBytes((uint)n)`: the four little-endian bytes of `n`
      modulo 2^32. */
  function LE32Bytes(n: int): (r: seq<byte>)
    ensures |r| == 4
  {
    var m := n % TwoTo32;
    [m % 256, m / 256 % 256, m / 256 / 256 % 256, m / 256 / 256 / 256 % 256]
  }

  /** The number four little-endian bytes stand for (`BitConverter.ToUInt32`). */
  function LE32Value(b: seq<byte>): nat
    requires |b| >= 4
  {
    b[0] as int + 256 * (b[1] as int + 256 * (b[2] as int + 256 * b[3] as int))
  }

  /** The stamp reads back as the length modulo 2^32. */
  lemma StampReadsBack(n: int)
    ensures LE32Value(LE32Bytes(n)) == n % TwoTo32
  {
    var m := n % TwoTo32;
    var q1 := m / 256;
    var q2 := q1 / 256;
    var q3 := q2 / 256;
    assert m == m % 256 + 256 * q1;
    assert q1 == q1 % 256 + 256 * q2;
    assert q2 == q2 % 256 + 256 * q3;
    assert q1 < 0x100_0000 && q2 < 0x1_0000 && q3 < 0x100;
  }

  /** `BitConverter.GetBytes((uint)a.Length).CopyTo(a, 0)`. */
  method StampLength(a: array<byte>)
    requires 4 <= a.Length
    modifies a
    ensures a[..] == LE32Bytes(a.Length) + old(a[..])[4..]
  {
    var b := LE32Bytes(a.Length);
    a[0] := b[0];
    a[1] := b[1];
    a[2] := b[2];
    a[3] := b[3];
  }

  // ---------------------------------------------------------------------------
  // The write phase as a whole

  /** `(newTotalBits + 7) / 8`: the new buffer's length in bytes. */
  function NewByteLength(totalBits: int, ps: seq<Patch>): int
  {
    (totalBits + Delta(ps) + 7) / 8
  }

  /** The writes of the write phase stay inside the buffers and the `int`
      arithmetic on bit counts does not overflow: the bit count of the old
      buffer and the total delta are `int`s, the new buffer has room for the
      length stamp, and every size field lies in both buffers. */
  ghost predicate Fits(s: seq<Bit>, plan: Plan)
  {
    var n := NewByteLength(|s|, plan.patches);
    IsInt32(|s|) && IsInt32(Delta(plan.patches)) && IsInt32(|s| + Delta(plan.patches)) &&
    4 <= n && SizesFit(plan.sizePositions, |s|, 8 * n)
  }

  /** The new buffer before the stamp: the spliced stream padded with zeros to
      whole bytes, with the size fields moved by the total delta. */
  function Body(s: seq<Bit>, plan: Plan): (r: seq<Bit>)
    requires Chained(plan.patches, |s|) && Fits(s, plan)
    ensures |r| == 8 * NewByteLength(|s|, plan.patches)
  {
    SplicedLength(s, plan.patches);
    var out := Spliced(s, plan.patches);
    var n := NewByteLength(|s|, plan.patches);
    FixSizes(s, out + Zeros(8 * n - |out|), plan.sizePositions, Delta(plan.patches))
  }

  /** `Body` unfolded for a buffer of `n` bytes. */
  lemma BodyIs(s: seq<Bit>, plan: Plan, n: int)
    requires Chained(plan.patches, |s|) && Fits(s, plan) && n == NewByteLength(|s|, plan.patches)
    ensures var out := Spliced(s, plan.patches);
      8 * n >= |out| &&
      Body(s, plan) == FixSizes(s, out + Zeros(8 * n - |out|), plan.sizePositions, Delta(plan.patches))
  {
    SplicedLength(s, plan.patches);
  }

  /** Everything `ModifyResources` does after the patch list is built. */
  method ApplyPlan(data: array<byte>, plan: Plan) returns (newData: array<byte>)
    requires Chained(plan.patches, 8 * data.Length) && Fits(Bits(data[..]), plan)
    ensures fresh(newData) && newData.Length == NewByteLength(8 * data.Length, plan.patches)
    ensures newData[..4] == LE32Bytes(newData.Length)
    ensures Bits(newData[..])[32..] == Body(Bits(data[..]), plan)[32..]
  {
    newData := WriteBody(data, plan);
    ghost var body := newData[..];
    StampLength(newData);
    StampKeeps(body, newData[..]);
  }

  /** The new buffer before the stamp: allocate it zeroed, splice the patches
      in, then move the size fields. */
  method WriteBody(data: array<byte>, plan: Plan) returns (newData: array<byte>)
    requires Chained(plan.patches, 8 * data.Length) && Fits(Bits(data[..]), plan)
    ensures fresh(newData) && newData.Length == NewByteLength(8 * data.Length, plan.patches)
    ensures Bits(newData[..]) == Body(Bits(data[..]), plan)
  {
    ghost var s := Bits(data[..]);
    SplicedLength(s, plan.patches);
    var totalDelta := Delta(plan.patches);
    var totalBits := data.Length * 8;
    var newTotalBits := totalBits + totalDelta;
    newData := new byte[(newTotalBits + 7) / 8](_ => 0);
    ghost var n := newData.Length;
    assert n == NewByteLength(|s|, plan.patches);
    ZeroBytes(newData[..]);
    SplicePatches(data, newData, plan.patches);
    ghost var spliced := Bits(newData[..]);
    assert SizesFit(plan.sizePositions, 8 * data.Length, 8 * n);
    FixSizeFields(data, newData, plan.sizePositions, totalDelta);
    BodySteps(s, plan, n, spliced, Bits(newData[..]));
  }

  /** The spliced stream padded with zeros, with the size fields moved, is
      the body. */
  lemma BodySteps(s: seq<Bit>, plan: Plan, n: int, spliced: seq<Bit>, fixed: seq<Bit>)
    requires Chained(plan.patches, |s|) && Fits(s, plan) && n == NewByteLength(|s|, plan.patches)
    requires var out := Spliced(s, plan.patches);
      |out| <= 8 * n && spliced == out + Zeros(8 * n - |out|)
    requires fixed == FixSizes(s, spliced, plan.sizePositions, Delta(plan.patches))
    ensures fixed == Body(s, plan)
  {
    BodyIs(s, plan, n);
  }

  /** Stamping the first four bytes leaves every bit from 32 on alone. */
  lemma StampKeeps(body: seq<byte>, stamped: seq<byte>)
    requires 4 <= |body| && stamped == LE32Bytes(|body|) + body[4..]
    ensures |stamped| == |body| && stamped[..4] == LE32Bytes(|body|)
    ensures Bits(stamped)[32..] == Bits(body)[32..]
  {
    BitsDrop(stamped);
    BitsDrop(body);
    assert stamped[4..] == body[4..];
  }


  // ---------------------------------------------------------------------------
  // ModifyResources

  /** `ModifyResources` reads without faulting and, when it patches, writes
      inside its buffers. */
  ghost predicate Modifiable(s: seq<Bit>, mods: map<string, Int32>)
  {
    PlanAt(s, mods).Some? &&
    (PlanAt(s, mods).value.Success? && PlanAt(s, mods).value.value.patches != [] ==>
      Fits(s, PlanAt(s, mods).value.value))
  }

  /** The new buffer of a successful plan, before the stamp. */
  function Modified(s: seq<Bit>, mods: map<string, Int32>): (r: seq<Bit>)
    requires PlanAt(s, mods).Some? && PlanAt(s, mods).value.Success?
    requires Fits(s, PlanAt(s, mods).value.value)
    ensures |r| == 8 * NewByteLength(|s|, PlanAt(s, mods).value.value.patches)
  {
    PlanChained(s, mods);
    Body(s, PlanAt(s, mods).value.value)
  }

  /** `ModifyResources`: a failure where the source throws; the input array
      itself when no resource is to be modified; otherwise a fresh array of
      `(8 * data.Length + totalDelta + 7) / 8` bytes whose first four bytes
      hold its length and whose bits from 32 on are `Modified`. */
  method ModifyResources(data: array<byte>, modifications: map<string, Int32>) returns (res: Result<array<byte>, Error>)
    requires Modifiable(Bits(data[..]), modifications)
    ensures var plan := PlanAt(Bits(data[..]), modifications).value;
      plan.Failure? ==> res == Failure(plan.error)
    ensures var plan := PlanAt(Bits(data[..]), modifications).value;
      plan.Success? && plan.value.patches == [] ==> res == Success(data)
    ensures var plan := PlanAt(Bits(data[..]), modifications).value;
      plan.Success? && plan.value.patches != [] ==>
        res.Success? && fresh(res.value) &&
        res.value.Length == NewByteLength(8 * data.Length, plan.value.patches) &&
        res.value[..4] == LE32Bytes(res.value.Length) &&
        Bits(res.value[..])[32..] == Modified(Bits(data[..]), modifications)[32..]
  {
    var plan := PlanPatches(data, modifications);
    if plan.Failure? {
      return Failure(plan.error);
    }
    if plan.value.patches == [] {
      return Success(data);
    }
    PlanChained(Bits(data[..]), modifications);
    var newData := ApplyPlan(data, plan.value);
    return Success(newData);
  }

  // ---------------------------------------------------------------------------
  // What the new buffer holds

  /** The size fields do not overlap one another. */
  ghost predicate Disjoint(positions: seq<int>)
  {
    forall i, j :: 0 <= i < j < |positions| ==> positions[i] + 32 <= positions[j] || positions[j] + 32 <= positions[i]
  }

  /** Every size field ends at or before `lo`. */
  ghost predicate SizesBefore(positions: seq<int>, lo: int)
  {
    forall i :: 0 <= i < |positions| ==> positions[i] + 32 <= lo
  }

  /** Overwriting elsewhere keeps a window. */
  lemma OverwriteKeeps(s: seq<Bit>, at: int, w: seq<Bit>, lo: int, hi: int)
    requires 0 <= at && at + |w| <= |s| && 0 <= lo <= hi <= |s|
    requires at + |w| <= lo || hi <= at
    ensures Overwrite(s, at, w)[lo..hi] == s[lo..hi]
  {
  }

  /** The size-field loop leaves every bit after the last field alone. */
  lemma {:induction false} FixSizesFrom(s: seq<Bit>, b: seq<Bit>, positions: seq<int>, delta: int, lo: int)
    requires SizesFit(positions, |s|, |b|) && SizesBefore(positions, lo) && 0 <= lo <= |b|
    ensures FixSizes(s, b, positions, delta)[lo..] == b[lo..]
  {
    if positions != [] {
      var front := positions[..|positions| - 1];
      FixSizesFrom(s, b, front, delta, lo);
      var p := positions[|positions| - 1];
      OverwriteKeeps(FixSizes(s, b, front, delta), p, PatternWindow(Pattern32(MovedSize(s, p, delta)), 32), lo, |b|);
    }
  }

  /** After the size-field loop, each field holds its moved value's pattern. */
  lemma {:induction false} FixSizesWrites(s: seq<Bit>, b: seq<Bit>, positions: seq<int>, delta: int, i: nat)
    requires SizesFit(positions, |s|, |b|) && Disjoint(positions) && i < |positions|
    ensures var p := positions[i];
      FixSizes(s, b, positions, delta)[p..p + 32] == PatternWindow(Pattern32(MovedSize(s, p, delta)), 32)
  {
    var last := |positions| - 1;
    var front := positions[..last];
    var q := positions[last];
    var w := PatternWindow(Pattern32(MovedSize(s, q, delta)), 32);
    var r := FixSizes(s, b, front, delta);
    assert FixSizes(s, b, positions, delta) == Overwrite(r, q, w);
    if i < last {
      FixSizesWrites(s, b, front, delta, i);
      var p := positions[i];
      assert front[i] == p;
      OverwriteKeeps(r, q, w, p, p + 32);
    }
  }

  /** A 32-bit pattern written bit by bit reads back as the `int` it came from. */
  lemma PatternReadsBack(x: int)
    requires IsInt32(x)
    ensures Int32Of(PatternWindow(Pattern32(x), 32)) == x
  {
    var w := PatternWindow(Pattern32(x), 32);
    assert w == LowBits(Pattern32(x), 32);
    Pow2Of32();
    ValueOfLowBits(Pattern32(x), 32);
    Int32OfValue(w);
  }

  /** After the size-field loop, each field reads as its moved value. */
  lemma FixedFieldReads(s: seq<Bit>, b: seq<Bit>, positions: seq<int>, delta: int, i: nat)
    requires SizesFit(positions, |s|, |b|) && Disjoint(positions) && i < |positions|
    ensures var p := positions[i];
      IntBitsAt(FixSizes(s, b, positions, delta), p, 32) == Some(Read(MovedSize(s, p, delta), p + 32))
  {
    var p := positions[i];
    FixSizesWrites(s, b, positions, delta, i);
    PatternReadsBack(MovedSize(s, p, delta));
  }

  /** Each of the size fields `GetChunkSizePositions` lists reads, in the new
      buffer, as its old value plus the total delta (wrapping like C# `int`). */
  lemma SizeFieldMoved(s: seq<Bit>, plan: Plan, i: nat)
    requires Chained(plan.patches, |s|) && Fits(s, plan)
    requires Disjoint(plan.sizePositions) && i < |plan.sizePositions|
    ensures var p := plan.sizePositions[i];
      IntBitsAt(s, p, 32).Some? &&
      IntBitsAt(Body(s, plan), p, 32) == Some(Read(Wrap32(IntBitsAt(s, p, 32).value.value + Delta(plan.patches)), p + 32))
  {
    var n := NewByteLength(|s|, plan.patches);
    BodyIs(s, plan, n);
    var out := Spliced(s, plan.patches);
    MovedField(s, out + Zeros(8 * n - |out|), Body(s, plan), plan.sizePositions, Delta(plan.patches), i);
  }

  /** A size field of `body`, the result of the size-field loop, reads as the
      old field plus `delta`. */
  lemma MovedField(s: seq<Bit>, b: seq<Bit>, body: seq<Bit>, positions: seq<int>, delta: int, i: nat)
    requires SizesFit(positions, |s|, |b|) && Disjoint(positions) && i < |positions|
    requires body == FixSizes(s, b, positions, delta)
    ensures var p := positions[i];
      IntBitsAt(s, p, 32).Some? &&
      IntBitsAt(body, p, 32) == Some(Read(Wrap32(IntBitsAt(s, p, 32).value.value + delta), p + 32))
  {
    FixedFieldReads(s, b, positions, delta, i);
  }

  /** From the end of the last size field on, the new buffer is the spliced
      stream. */
  lemma BodyFrom(s: seq<Bit>, plan: Plan, lo: int)
    requires Chained(plan.patches, |s|) && Fits(s, plan)
    requires SizesBefore(plan.sizePositions, lo) && 0 <= lo <= |Spliced(s, plan.patches)|
    ensures var out := Spliced(s, plan.patches);
      |out| <= |Body(s, plan)| && Body(s, plan)[lo..|out|] == out[lo..]
  {
    var n := NewByteLength(|s|, plan.patches);
    BodyIs(s, plan, n);
    var out := Spliced(s, plan.patches);
    PaddedFrom(s, out, Zeros(8 * n - |out|), plan.sizePositions, Delta(plan.patches), lo);
  }

  /** The size-field loop over a padded stream leaves the stream alone from
      `lo` on. */
  lemma PaddedFrom(s: seq<Bit>, out: seq<Bit>, pad: seq<Bit>, positions: seq<int>, delta: int, lo: int)
    requires SizesFit(positions, |s|, |out + pad|) && SizesBefore(positions, lo) && 0 <= lo <= |out|
    ensures FixSizes(s, out + pad, positions, delta)[lo..|out|] == out[lo..]
  {
    FixSizesFrom(s, out + pad, positions, delta, lo);
    assert (out + pad)[lo..][..|out| - lo] == out[lo..];
  }

  /** A bit outside every size field is left alone by the size-field loop. */
  lemma {:induction false} FixSizesKeeps(s: seq<Bit>, b: seq<Bit>, positions: seq<int>, delta: int, k: int)
    requires SizesFit(positions, |s|, |b|) && 0 <= k < |b|
    requires forall i :: 0 <= i < |positions| ==> !(positions[i] <= k < positions[i] + 32)
    ensures FixSizes(s, b, positions, delta)[k] == b[k]
  {
    if positions != [] {
      FixSizesKeeps(s, b, positions[..|positions| - 1], delta, k);
    }
  }

  /** Agreement from `lo` on carries over to every window after `lo`. */
  lemma SubSlice<T>(x: seq<T>, y: seq<T>, lo: int, a: int, b: int)
    requires 0 <= lo <= a <= b <= |y| <= |x| && x[lo..|y|] == y[lo..]
    ensures x[a..b] == y[a..b]
  {
    forall i | 0 <= i < b - a
      ensures x[a..b][i] == y[a..b][i]
    {
      assert x[a + i] == x[lo..|y|][a + i - lo];
    }
  }

  /** After at least one round, the copy loop has got past the first patch. */
  lemma ShiftedPastFirst(s: seq<Bit>, ps: seq<Patch>, k: nat)
    requires Chained(ps, |s|) && 1 <= k <= |ps|
    ensures ps[0].pos <= SrcAfter(ps, k) + Delta(ps[..k]) <= |Spliced(s, ps)|
  {
    ProducedLength(s, ps, k);
    ProducedGrows(s, ps, 1, k);
    ProducedWithin(s, ps, k);
    assert Produced(s, ps, 1) == [] + s[0..ps[0].pos] + ps[0].newBits;
  }

  /** Bits before the first patch are copied verbatim, except the size fields. */
  lemma PrefixKept(s: seq<Bit>, plan: Plan, k: int)
    requires Chained(plan.patches, |s|) && Fits(s, plan) && plan.patches != []
    requires 0 <= k < plan.patches[0].pos
    requires forall i :: 0 <= i < |plan.sizePositions| ==> !(plan.sizePositions[i] <= k < plan.sizePositions[i] + 32)
    ensures k < |Body(s, plan)| && Body(s, plan)[k] == s[k]
  {
    var n := NewByteLength(|s|, plan.patches);
    BodyIs(s, plan, n);
    var out := Spliced(s, plan.patches);
    SplicePrefix(s, plan.patches);
    assert out[k] == out[..plan.patches[0].pos][k];
    FixSizesKeeps(s, out + Zeros(8 * n - |out|), plan.sizePositions, Delta(plan.patches), k);
  }

  /** `b` holds the spliced stream `out` from `lo` on. */
  ghost predicate AgreesFrom(b: seq<Bit>, out: seq<Bit>, lo: int)
  {
    0 <= lo <= |out| <= |b| && b[lo..|out|] == out[lo..]
  }

  /** Patch `k` lands in any stream that agrees with the spliced one from the
      first patch on. */
  lemma PatchIn(s: seq<Bit>, ps: seq<Patch>, k: nat, b: seq<Bit>)
    requires Chained(ps, |s|) && k < |ps| && AgreesFrom(b, Spliced(s, ps), ps[0].pos)
    ensures var at := ps[k].pos + Delta(ps[..k]);
      ps[0].pos <= at && at + |ps[k].newBits| <= |b| && b[at..at + |ps[k].newBits|] == ps[k].newBits
  {
    PatchPlace(s, ps, k);
    WindowIn(b, Spliced(s, ps), ps[0].pos, ps[k].pos + Delta(ps[..k]), ps[k].newBits);
  }

  /** Patch `k` lands after the first patch's position in the spliced stream. */
  lemma PatchPlace(s: seq<Bit>, ps: seq<Patch>, k: nat)
    requires Chained(ps, |s|) && k < |ps|
    ensures var at := ps[k].pos + Delta(ps[..k]);
      var out := Spliced(s, ps);
      ps[0].pos <= at && at + |ps[k].newBits| <= |out| && out[at..at + |ps[k].newBits|] == ps[k].newBits
  {
    PatchLands(s, ps, k);
    if k == 0 {
      assert ps[..0] == [];
    } else {
      ShiftedPastFirst(s, ps, k);
    }
  }

  /** A window of `out` at `a` is found at `a` in any `b` that agrees with
      `out` from `lo <= a` on. */
  lemma WindowIn<T>(b: seq<T>, out: seq<T>, lo: int, a: int, w: seq<T>)
    requires 0 <= lo <= a && a + |w| <= |out| <= |b| && b[lo..|out|] == out[lo..] && out[a..a + |w|] == w
    ensures b[a..a + |w|] == w
  {
    SubSlice(b, out, lo, a, a + |w|);
  }

  /** The gap before patch `k` lands likewise. */
  lemma GapIn(s: seq<Bit>, ps: seq<Patch>, k: nat, b: seq<Bit>)
    requires Chained(ps, |s|) && 1 <= k < |ps| && AgreesFrom(b, Spliced(s, ps), ps[0].pos)
    ensures var d := Delta(ps[..k]);
      0 <= SrcAfter(ps, k) + d <= ps[k].pos + d <= |b| &&
      b[SrcAfter(ps, k) + d..ps[k].pos + d] == s[SrcAfter(ps, k)..ps[k].pos]
  {
    var d := Delta(ps[..k]);
    PatchLands(s, ps, k);
    ShiftedPastFirst(s, ps, k);
    SubSlice(b, Spliced(s, ps), ps[0].pos, SrcAfter(ps, k) + d, ps[k].pos + d);
  }

  /** The tail lands likewise. */
  lemma TailIn(s: seq<Bit>, ps: seq<Patch>, b: seq<Bit>)
    requires Chained(ps, |s|) && ps != [] && AgreesFrom(b, Spliced(s, ps), ps[0].pos)
    ensures var t := SrcAfter(ps, |ps|);
      0 <= t + Delta(ps) <= |s| + Delta(ps) <= |b| && b[t + Delta(ps)..|s| + Delta(ps)] == s[t..]
  {
    var t := SrcAfter(ps, |ps|);
    TailPlace(s, ps);
    TailWindow(b, Spliced(s, ps), ps[0].pos, t + Delta(ps), |s| + Delta(ps), s[t..]);
  }

  /** The tail starts after the first patch and runs to the end of the
      spliced stream. */
  lemma TailPlace(s: seq<Bit>, ps: seq<Patch>)
    requires Chained(ps, |s|) && ps != []
    ensures var t := SrcAfter(ps, |ps|);
      var out := Spliced(s, ps);
      ps[0].pos <= t + Delta(ps) <= |out| == |s| + Delta(ps) && out[t + Delta(ps)..] == s[t..]
  {
    TailLands(s, ps);
    SplicedLength(s, ps);
    ShiftedPastFirst(s, ps, |ps|);
    assert ps[..|ps|] == ps;
  }

  /** A suffix of `out` from `a` on is found at `a` in any `b` that agrees
      with `out` from `lo <= a` on. */
  lemma TailWindow<T>(b: seq<T>, out: seq<T>, lo: int, a: int, e: int, tail: seq<T>)
    requires e == |out| && 0 <= lo <= a <= |out| <= |b| && b[lo..|out|] == out[lo..] && out[a..] == tail
    ensures b[a..e] == tail
  {
    SubSlice(b, out, lo, a, |out|);
    assert out[a..|out|] == out[a..];
  }

  /** The encoding of `v` found at `at` reads back as `v` from the debug bit
      before it. */
  lemma WindowDecodes(b: seq<Bit>, at: int, v: int)
    requires IsInt32(v) && v != MinInt32
    requires 1 <= at && at + |I32Bits(v)| <= |b| && b[at..at + |I32Bits(v)|] == I32Bits(v)
    ensures I32PackedAt(b, at - 1, NoOid) == Some(Read(v, at + |I32Bits(v)|))
  {
    I32RoundTrip(b, at - 1, v);
  }

  /** The patch for entry `j` follows exactly the patches for the entries
      before it, and writes the new value's encoding after the debug bit. */
  lemma PatchOfEntry(es: seq<ResourceEntry>, mods: map<string, Int32>, j: nat) returns (k: nat)
    requires PatchesFor(es, mods).Success? && j < |es| && es[j].name in mods
    ensures PatchesFor(es[..j], mods).Success? && !Unencodable(es[j], mods)
    ensures var ps := PatchesFor(es, mods).value;
      k < |ps| && ps[..k] == PatchesFor(es[..j], mods).value &&
      ps[k].pos == es[j].quantityBitPos + 1 && ps[k].newBits == I32Bits(mods[es[j].name])
  {
    var ps := PatchesFor(es, mods).value;
    k := EntryPatched(es, mods, j);
    PatchesPrefix(es, mods, j);
    assert ps[..k] == PatchesFor(es[..j], mods).value;
  }

  /** The quantity of every entry named in `mods` reads back as its new value
      at its old position shifted by the change in length of the entries
      modified before it, in any stream that agrees with the spliced one from
      the first patch on (as the new buffer does, by `BodyAgrees`). */
  lemma NewQuantityIn(s: seq<Bit>, es: seq<ResourceEntry>, mods: map<string, Int32>, ps: seq<Patch>, j: nat, b: seq<Bit>, v: int)
      returns (at: int)
    requires PatchesFor(es, mods) == Success(ps) && ps != [] && Chained(ps, |s|)
    requires AgreesFrom(b, Spliced(s, ps), ps[0].pos) && 1 <= ps[0].pos
    requires j < |es| && es[j].name in mods && mods[es[j].name] == v
    ensures PatchesFor(es[..j], mods).Success?
    ensures at == es[j].quantityBitPos + 1 + Delta(PatchesFor(es[..j], mods).value)
    ensures v != MinInt32
    ensures I32PackedAt(b, at - 1, NoOid) == Some(Read(v, at + |I32Bits(v)|))
  {
    var k := PatchOfEntry(es, mods, j);
    at := es[j].quantityBitPos + 1 + Delta(PatchesFor(es[..j], mods).value);
    PatchDecodes(s, ps, k, b, v, at);
  }

  /** A patch carrying the encoding of `v` reads back as `v` from the debug
      bit before it. */
  lemma PatchDecodes(s: seq<Bit>, ps: seq<Patch>, k: nat, b: seq<Bit>, v: int, at: int)
    requires Chained(ps, |s|) && k < |ps| && AgreesFrom(b, Spliced(s, ps), ps[0].pos) && 1 <= ps[0].pos
    requires IsInt32(v) && v != MinInt32 && ps[k].newBits == I32Bits(v)
    requires at == ps[k].pos + Delta(ps[..k])
    ensures I32PackedAt(b, at - 1, NoOid) == Some(Read(v, at + |I32Bits(v)|))
  {
    PatchIn(s, ps, k, b);
    WindowDecodes(b, at, v);
  }

  /** The new buffer agrees with the spliced stream from the first patch on. */
  lemma BodyAgrees(s: seq<Bit>, plan: Plan)
    requires Chained(plan.patches, |s|) && Fits(s, plan) && plan.patches != []
    requires SizesBefore(plan.sizePositions, plan.patches[0].pos)
    ensures AgreesFrom(Body(s, plan), Spliced(s, plan.patches), plan.patches[0].pos)
  {
    SplicePrefix(s, plan.patches);
    BodyFrom(s, plan, plan.patches[0].pos);
  }

  /** In the stream `ModifyResources` builds, the quantity of every resource
      named in `mods` reads back as its new value, from its old debug bit
      shifted by the change in length of the resources modified before it. */
  lemma ModifiedQuantity(s: seq<Bit>, mods: map<string, Int32>, plan: Plan, es: seq<ResourceEntry>, j: nat, b: seq<Bit>, v: int)
      returns (at: int)
    requires PlanAt(s, mods) == Some(Success(plan)) && Fits(s, plan) && plan.patches != []
    requires SizesBefore(plan.sizePositions, plan.patches[0].pos)
    requires ResourcesAt(s) == Some(Success(es)) && j < |es| && es[j].name in mods && mods[es[j].name] == v
    requires b == Modified(s, mods)
    ensures PatchesFor(es[..j], mods).Success?
    ensures at == es[j].quantityBitPos + 1 + Delta(PatchesFor(es[..j], mods).value)
    ensures v != MinInt32
    ensures I32PackedAt(b, at - 1, NoOid) == Some(Read(v, at + |I32Bits(v)|))
  {
    at := ModifiedWindow(s, mods, plan, es, j, b);
    WindowDecodes(b, at, v);
  }

  /** The new encoding of a modified quantity sits in the body at its old
      presence bit shifted by the change in length before it. */
  lemma ModifiedWindow(s: seq<Bit>, mods: map<string, Int32>, plan: Plan, es: seq<ResourceEntry>, j: nat, b: seq<Bit>)
      returns (at: int)
    requires PlanAt(s, mods) == Some(Success(plan)) && Fits(s, plan) && plan.patches != []
    requires SizesBefore(plan.sizePositions, plan.patches[0].pos)
    requires ResourcesAt(s) == Some(Success(es)) && j < |es| && es[j].name in mods
    requires b == Modified(s, mods)
    ensures PatchesFor(es[..j], mods).Success?
    ensures at == es[j].quantityBitPos + 1 + Delta(PatchesFor(es[..j], mods).value)
    ensures mods[es[j].name] != MinInt32
    ensures 1 <= at && at + |I32Bits(mods[es[j].name])| <= |b| && b[at..at + |I32Bits(mods[es[j].name])|] == I32Bits(mods[es[j].name])
  {
    PlanFacts(s, mods, plan, es);
    BodyAgreesAt(s, plan, b);
    at := AgreedWindow(s, mods, plan.patches, es, j, b);
  }

  /** `ModifiedWindow` in any stream that agrees with the spliced one from the
      first patch on. */
  lemma AgreedWindow(s: seq<Bit>, mods: map<string, Int32>, ps: seq<Patch>, es: seq<ResourceEntry>, j: nat, b: seq<Bit>)
      returns (at: int)
    requires PatchesFor(es, mods) == Success(ps) && ps != [] && Chained(ps, |s|)
    requires AgreesFrom(b, Spliced(s, ps), ps[0].pos) && 1 <= ps[0].pos
    requires j < |es| && es[j].name in mods
    ensures PatchesFor(es[..j], mods).Success?
    ensures at == es[j].quantityBitPos + 1 + Delta(PatchesFor(es[..j], mods).value)
    ensures mods[es[j].name] != MinInt32
    ensures 1 <= at && at + |I32Bits(mods[es[j].name])| <= |b| && b[at..at + |I32Bits(mods[es[j].name])|] == I32Bits(mods[es[j].name])
  {
    var k := PatchOfEntry(es, mods, j);
    at := es[j].quantityBitPos + 1 + Delta(PatchesFor(es[..j], mods).value);
    PatchIn(s, ps, k, b);
  }

  /** What a successful plan gives `ModifiedQuantity`. */
  lemma PlanFacts(s: seq<Bit>, mods: map<string, Int32>, plan: Plan, es: seq<ResourceEntry>)
    requires PlanAt(s, mods) == Some(Success(plan)) && Fits(s, plan) && plan.patches != []
    requires ResourcesAt(s) == Some(Success(es))
    ensures Chained(plan.patches, |s|) && PatchesFor(es, mods) == Success(plan.patches)
    ensures 1 <= plan.patches[0].pos && Modified(s, mods) == Body(s, plan)
  {
    PlanChained(s, mods);
    PlanFromTable(s, mods);
    ResourcesSpaced(s);
    var first := PatchSource(es, mods, 0);
  }

  /** `BodyAgrees` for a stream `b` that is the body. */
  lemma BodyAgreesAt(s: seq<Bit>, plan: Plan, b: seq<Bit>)
    requires Chained(plan.patches, |s|) && Fits(s, plan) && plan.patches != []
    requires SizesBefore(plan.sizePositions, plan.patches[0].pos) && b == Body(s, plan)
    ensures AgreesFrom(b, Spliced(s, plan.patches), plan.patches[0].pos)
  {
    BodyAgrees(s, plan);
  }

  /** Each patch's new bits start at the presence bit, at its position shifted
      by the change in length of the patches before it. */
  lemma PatchInOutput(s: seq<Bit>, plan: Plan, k: nat)
    requires Chained(plan.patches, |s|) && Fits(s, plan) && k < |plan.patches|
    requires SizesBefore(plan.sizePositions, plan.patches[0].pos)
    ensures var ps := plan.patches;
      var at := ps[k].pos + Delta(ps[..k]);
      0 <= at && at + |ps[k].newBits| <= |Body(s, plan)| &&
      Body(s, plan)[at..at + |ps[k].newBits|] == ps[k].newBits
  {
    BodyAgrees(s, plan);
    PatchIn(s, plan.patches, k, Body(s, plan));
  }

  /** The unchanged run between patch `k - 1` and patch `k` (and so every
      resource in it that is not modified) is copied, shifted by the change in
      length of the patches before it. */
  lemma GapInOutput(s: seq<Bit>, plan: Plan, k: nat)
    requires Chained(plan.patches, |s|) && Fits(s, plan) && 1 <= k < |plan.patches|
    requires SizesBefore(plan.sizePositions, plan.patches[0].pos)
    ensures var ps := plan.patches;
      var d := Delta(ps[..k]);
      0 <= SrcAfter(ps, k) + d <= ps[k].pos + d <= |Body(s, plan)| &&
      Body(s, plan)[SrcAfter(ps, k) + d..ps[k].pos + d] == s[SrcAfter(ps, k)..ps[k].pos]
  {
    BodyAgrees(s, plan);
    GapIn(s, plan.patches, k, Body(s, plan));
  }

  /** After the last patch, the rest of the old stream follows, shifted by the
      total delta. */
  lemma TailInOutput(s: seq<Bit>, plan: Plan)
    requires Chained(plan.patches, |s|) && Fits(s, plan) && plan.patches != []
    requires SizesBefore(plan.sizePositions, plan.patches[0].pos)
    ensures var ps := plan.patches;
      var t := SrcAfter(ps, |ps|);
      0 <= t + Delta(ps) <= |s| + Delta(ps) <= |Body(s, plan)| &&
      Body(s, plan)[t + Delta(ps)..|s| + Delta(ps)] == s[t..]
  {
    BodyAgrees(s, plan);
    TailIn(s, plan.patches, Body(s, plan));
  }
}
