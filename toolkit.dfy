/** The Python prototype `stvoy_toolkit.py` next to the engine. Its bit
    primitives, navigation and checksum do what the engine's do. Its readers
    do not: `read_i32_packed`, `read_u64_packed` and `read_string`
    work on unbounded integers, and so does `read_resources`, which uses them.
    Each is defined here on its own and tied to the engine's reader by a
    lemma, as are the encoder and the patch list and size arithmetic of
    `modify_resources`. */
module Toolkit {
  import opened Wrappers
  import opened BitMath
  import opened BitWriter
  import opened StreamFormat
  import opened PackedEncoding
  import opened ResourceTable
  import opened Navigator
  import opened Reader
  import opened ResourcePatch

  // ---------------------------------------------------------------------------
  // encode_i32_packed

  /** `encode_i32_packed` on any Python integer. The leading-zero scan looks at
      bits 31 down to 0 of the magnitude only, so the count is 32 minus the bit
      length of the magnitude's low 32 bits, and only that many magnitude bits
      are written. `abs` does not overflow, so `int.MinValue` gets a count of 0
      and 32 magnitude bits. */
  function PyEncodeI32(v: int): (r: seq<Bit>)
  {
    if v == 0 then [0]
    else
      var m := Magnitude(v);
      var vb := BitLength(m % TwoTo32);
      Pow2Of32();
      BitLengthFits(m % TwoTo32, 32);
      [1, if v < 0 then 1 else 0] + LowBits(32 - vb, 5) + LowBits(m, vb)
  }

  /** On every value `EncodeI32` accepts, the two encoders agree; the engine
      refuses `int.MinValue`, which Python encodes in 39 bits. */
  lemma PyEncodeAgrees(v: int)
    requires IsInt32(v)
    ensures v != MinInt32 ==> PyEncodeI32(v) == I32Bits(v) && EncodeResult(v) == Success(PyEncodeI32(v))
    ensures v == MinInt32 ==> EncodeResult(v) == Failure(AbsOverflow) && |PyEncodeI32(v)| == 39
  {
    if v != 0 {
      assert Magnitude(v) % TwoTo32 == Magnitude(v);
    }
    if v == MinInt32 {
      MinValueLength();
    }
  }

  /** `int.MinValue`'s magnitude has 32 significant bits. */
  lemma MinValueLength()
    ensures BitLength(TwoTo31) == 32
  {
    Pow2Of32();
    Pow2Of31();
    BitLengthFits(TwoTo31, 32);
    BitLengthFits(TwoTo31, 31);
  }

  /** The engine's `ReadI32Packed(-1)` reads Python's encoding of
      `int.MinValue` back as `int.MinValue`: the 32 magnitude bits read as a
      C# `int` are `int.MinValue`, and negating it wraps to itself. */
  lemma PyMinValueReads(s: seq<Bit>, p: int)
    requires 0 <= p && p + 40 <= |s| && s[p + 1..p + 40] == PyEncodeI32(MinInt32)
    ensures I32PackedAt(s, p, NoOid) == Some(Read(MinInt32, p + 40))
  {
    MinValueLength();
    var w := PyEncodeI32(MinInt32);
    assert w == [1, 1] + LowBits(0, 5) + LowBits(TwoTo31, 32);
    Window(s, p + 1, w, 0, 2);
    assert s[p + 1] == w[0] && s[p + 2] == w[1];
    Window(s, p + 1, w, 2, 7);
    Window(s, p + 1, w, 7, 39);
    assert s[p + 3..p + 8] == LowBits(0, 5);
    assert s[p + 8..p + 40] == LowBits(TwoTo31, 32);
    FieldBits(s, p + 3, 5, 0);
    Pow2Of32();
    ValueOfLowBits(TwoTo31, 32);
    Int32OfValue(s[p + 8..p + 40]);
    assert IntBitsAt(s, p + 8, 32) == Some(Read(MinInt32, p + 40));
    assert DebugSkipAt(s, p, NoOid) == Some(p + 1);
    I32PackedFrom(s, p, NoOid, p + 1, Read(1, p + 3), Read(0, p + 8), 32, Read(MinInt32, p + 40));
    NegateMinValue();
  }

  /** `-int.MinValue` wraps to `int.MinValue`. */
  lemma NegateMinValue()
    ensures Wrap32(-MinInt32) == MinInt32
  {
    assert -MinInt32 == TwoTo31 < TwoTo32;
  }

  // ---------------------------------------------------------------------------
  // BitReader.read_i32_packed

  /** `read_i32_packed`: the engine's fields, but the count and magnitude are
      read unsigned and the magnitude is negated without wrap-around. */
  function PyI32PackedAt(s: seq<Bit>, p: int, oid: int): Option<Read<int>>
  {
    var q :- DebugSkipAt(s, p, oid);
    var present :- BitAt(s, q);
    if present.value == 0 then Some(Read(0, present.next))
    else
      var sign :- BitAt(s, present.next);
      var lzc :- BitsAt(s, sign.next, 5);
      assert Pow2(5) == 32;
      var v :- BitsAt(s, lzc.next, 32 - lzc.value);
      Some(Read(if sign.value != 0 then -(v.value as int) else v.value, v.next))
  }

  /** The two readers fail on the same streams, stop at the same place, and the
      engine's value is Python's wrapped to a C# `int`. */
  lemma PyReadWraps(s: seq<Bit>, p: int, oid: int)
    ensures PyI32PackedAt(s, p, oid).None? <==> I32PackedAt(s, p, oid).None?
    ensures PyI32PackedAt(s, p, oid).Some? ==>
      var r := PyI32PackedAt(s, p, oid).value;
      I32PackedAt(s, p, oid) == Some(Read(Wrap32(r.value), r.next))
  {
    match DebugSkipAt(s, p, oid)
    case None =>
    case Some(q) =>
      if 0 <= q < |s| && s[q] == 1 && 0 <= q + 1 < |s| && q + 7 <= |s| {
        PresentWraps(s, p, oid, q);
      } else if 0 <= q < |s| && s[q] == 0 {
        Wrap32Id(0);
      }
  }

  /** `PyReadWraps` for a present value whose count can be read. */
  lemma PresentWraps(s: seq<Bit>, p: int, oid: int, q: int)
    requires DebugSkipAt(s, p, oid) == Some(q)
    requires 0 <= q && q + 7 <= |s| && s[q] == 1
    ensures PyI32PackedAt(s, p, oid).None? <==> I32PackedAt(s, p, oid).None?
    ensures PyI32PackedAt(s, p, oid).Some? ==>
      var r := PyI32PackedAt(s, p, oid).value;
      I32PackedAt(s, p, oid) == Some(Read(Wrap32(r.value), r.next))
  {
    var sign := s[q + 1];
    var lb := s[q + 2..q + 7];
    SmallInt32Of(lb);
    assert Pow2(5) == 32;
    var vb: nat := 32 - Value(lb);
    assert BitsAt(s, q + 2, 5) == Some(Read(Value(lb), q + 7));
    assert IntBitsAt(s, q + 2, 5) == Some(Read(Value(lb) as int, q + 7));
    if q + 7 + vb <= |s| {
      var mb := s[q + 7..q + 7 + vb];
      Int32OfValue(mb);
      ValueBound(mb);
      var m := Value(mb);
      assert BitsAt(s, q + 7, vb) == Some(Read(m, q + 7 + vb));
      I32PackedFrom(s, p, oid, q, Read(sign, q + 2), Read(Value(lb), q + 7), vb, Read(Int32Of(mb), q + 7 + vb));
      PyI32PackedFrom(s, p, oid, q, Read(sign, q + 2), Read(Value(lb), q + 7), vb, Read(m, q + 7 + vb));
      WrapUnsigned(m);
    }
  }

  /** `PyI32PackedAt` in terms of the results of its parts. */
  lemma PyI32PackedFrom(s: seq<Bit>, p: int, oid: int, q: int, sign: Read<Bit>, lzc: Read<nat>, vb: nat, v: Read<nat>)
    requires DebugSkipAt(s, p, oid) == Some(q) && BitAt(s, q) == Some(Read(1, q + 1))
    requires BitAt(s, q + 1) == Some(sign) && BitsAt(s, sign.next, 5) == Some(lzc)
    requires vb == 32 - lzc.value && BitsAt(s, lzc.next, vb) == Some(v)
    ensures PyI32PackedAt(s, p, oid) == Some(Read(if sign.value != 0 then -(v.value as int) else v.value, v.next))
  {
  }

  /** A 32-bit pattern read as a C# `int` is the pattern wrapped, and so is its
      negation. */
  lemma WrapUnsigned(u: nat)
    requires u < TwoTo32
    ensures ToInt32(u) == Wrap32(u) && Wrap32(-ToInt32(u)) == Wrap32(-(u as int))
  {
    if u >= TwoTo31 {
      assert -ToInt32(u) == -(u as int) + TwoTo32;
      ModShift(-(u as int), 1);
    }
  }

  /** Adding a multiple of 2^32 does not change the remainder. */
  lemma ModShift(x: int, k: int)
    ensures (x + k * TwoTo32) % TwoTo32 == x % TwoTo32
  {
  }

  // ---------------------------------------------------------------------------
  // read_string

  /** `read_string`: the engine's layout, but Python builds a string of any
      length, where the engine faults at a length of 2^31 or more. */
  function PyStringAt(s: seq<Bit>, p: int, oid: int): Option<Read<string>>
  {
    var q :- DebugSkipAt(s, p, oid);
    var len :- U32PackedAt(s, q, NoOid);
    if len.value == 0 then Some(Read("", len.next))
    else
      var w :- IntBitsAt(s, len.next, 4);
      var base :- IntBitsAt(s, w.next, 8);
      CharsAt(s, base.next, len.value, w.value, base.value)
  }

  /** The two string readers agree exactly on strings shorter than 2^31
      characters; on a longer one only the engine fails. */
  lemma PyStringAgrees(s: seq<Bit>, p: int, oid: int)
    ensures PyStringAt(s, p, oid).None? ==> StringAt(s, p, oid).None?
    ensures PyStringAt(s, p, oid).Some? ==>
      StringAt(s, p, oid) == if |PyStringAt(s, p, oid).value.value| < TwoTo31 then PyStringAt(s, p, oid) else None
  {
  }

  // ---------------------------------------------------------------------------
  // read_resources

  /** One entry of `read_resources`: the index is kept unsigned and the
      quantity is `read_i32_packed`'s unbounded value. */
  datatype PyResource = PyResource(
    index: nat,
    name: string,
    quantity: int,
    quantityBitPos: int,
    flag: bool)

  /** The engine's view of a Python entry: the index cast to `int`, the
      quantity wrapped to an `int`. */
  function EngineView(e: PyResource): (r: ResourceEntry)
    ensures r.name == e.name && r.quantityBitPos == e.quantityBitPos && r.isItem == e.flag
  {
    ResourceEntry(Wrap32(e.index), e.name, Wrap32(e.quantity), e.quantityBitPos, e.flag)
  }

  /** `EngineView` on every entry. */
  function EngineViews(es: seq<PyResource>): (r: seq<ResourceEntry>)
    ensures |r| == |es| && forall i :: 0 <= i < |es| ==> r[i] == EngineView(es[i])
  {
    if es == [] then [] else EngineViews(es[..|es| - 1]) + [EngineView(es[|es| - 1])]
  }

  /** Every name is short enough for the engine's `StringBuilder`. */
  ghost predicate NamesFit(es: seq<PyResource>)
  {
    forall i :: 0 <= i < |es| ==> |es[i].name| < TwoTo31
  }

  /** The body of the loop in `read_resources`. */
  function PyEntryAt(s: seq<Bit>, p: int): Option<Read<PyResource>>
  {
    var idx :- U32PackedAt(s, p, NoOid);
    var name :- PyStringAt(s, idx.next, TagRinm);
    var qty :- PyI32PackedAt(s, name.next, NoOid);
    var flag :- BoolWrappedAt(s, qty.next, NoOid);
    Some(Read(PyResource(idx.value, name.value, qty.value, name.next, flag.value != 0), flag.next))
  }

  /** `PyEntryAt` on `s`, as a decoder `Repeat` can apply. */
  function PyEntryDecoder(s: seq<Bit>): int -> Option<Read<PyResource>>
  {
    (q: int) => PyEntryAt(s, q)
  }

  /** The `rict`-tagged count as `read_i32_packed` reads it. */
  function PyCountAt(s: seq<Bit>): Option<Read<int>>
  {
    var t :- CserWalk(s);
    PyI32PackedAt(s, t.pos, TagRict)
  }

  /** `read_resources`: `range(count)` of a negative count is empty, so Python
      returns no entries where the engine cannot make its list. */
  function PyResourcesAt(s: seq<Bit>): Option<seq<PyResource>>
  {
    var count :- PyCountAt(s);
    if count.value < 0 then Some([])
    else
      var entries :- Repeat(PyEntryDecoder(s), count.next, count.value);
      Some(entries.value)
  }

  /** One entry: where Python fails the engine faults too; where Python reads
      an entry, the engine reads its engine view, unless the name is 2^31
      characters or longer. */
  lemma PyEntryAgrees(s: seq<Bit>, p: int)
    ensures PyEntryAt(s, p).None? ==> EntryAt(s, p).None?
    ensures PyEntryAt(s, p).Some? ==>
      var r := PyEntryAt(s, p).value;
      EntryAt(s, p) == if |r.value.name| < TwoTo31 then Some(Read(EngineView(r.value), r.next)) else None
  {
    match U32PackedAt(s, p, NoOid)
    case None =>
    case Some(idx) =>
      U32PackedLayout(s, p);
      WrapUnsigned(idx.value);
      PyStringAgrees(s, idx.next, TagRinm);
      match PyStringAt(s, idx.next, TagRinm)
      case None =>
      case Some(name) =>
        PyReadWraps(s, name.next, NoOid);
  }

  /** `n` entries: the engine reads the engine views of Python's entries, and
      faults exactly where Python does or where a name is too long. */
  lemma {:induction false} PyEntriesAgree(s: seq<Bit>, p: int, n: nat)
    ensures Repeat(PyEntryDecoder(s), p, n).None? ==> EntriesAt(s, p, n).None?
    ensures Repeat(PyEntryDecoder(s), p, n).Some? ==>
      var r := Repeat(PyEntryDecoder(s), p, n).value;
      EntriesAt(s, p, n) == if NamesFit(r.value) then Some(Read(EngineViews(r.value), r.next)) else None
  {
    if n > 0 {
      PyEntriesAgree(s, p, n - 1);
      match Repeat(PyEntryDecoder(s), p, n - 1)
      case None =>
      case Some(front) =>
        PyEntryAgrees(s, front.next);
        match PyEntryAt(s, front.next)
        case None =>
        case Some(x) =>
          NamesFitSnoc(front.value, x.value);
    }
  }

  /** Appending one entry: the names still fit exactly when the new one does,
      and the views gain the new entry's view. */
  lemma NamesFitSnoc(front: seq<PyResource>, x: PyResource)
    ensures NamesFit(front + [x]) <==> NamesFit(front) && |x.name| < TwoTo31
    ensures EngineViews(front + [x]) == EngineViews(front) + [EngineView(x)]
  {
    var all := front + [x];
    assert all[..|all| - 1] == front;
    assert all[|all| - 1] == x;
    if NamesFit(front) && |x.name| < TwoTo31 {
      forall i | 0 <= i < |all|
        ensures |all[i].name| < TwoTo31
      {
        if i < |front| {
          assert all[i] == front[i];
        }
      }
    }
    if NamesFit(all) {
      forall i | 0 <= i < |front|
        ensures |front[i].name| < TwoTo31
      {
        assert all[i] == front[i];
      }
    }
  }

  /** The two counts: the engine's is Python's wrapped to an `int`. */
  lemma PyCountWraps(s: seq<Bit>)
    ensures PyCountAt(s).None? <==> CountAt(s).None?
    ensures PyCountAt(s).Some? ==>
      var c := PyCountAt(s).value;
      -(TwoTo32 as int) < c.value < TwoTo32 && CountAt(s) == Some(Read(Wrap32(c.value), c.next))
  {
    match CserWalk(s)
    case None =>
    case Some(t) =>
      PyCountBound(s, t.pos, TagRict);
  }

  /** `read_i32_packed` reads a magnitude of at most 32 bits, and the engine
      reads it wrapped. */
  lemma PyCountBound(s: seq<Bit>, p: int, oid: int)
    ensures PyI32PackedAt(s, p, oid).None? <==> I32PackedAt(s, p, oid).None?
    ensures PyI32PackedAt(s, p, oid).Some? ==>
      var r := PyI32PackedAt(s, p, oid).value;
      -(TwoTo32 as int) < r.value < TwoTo32 && I32PackedAt(s, p, oid) == Some(Read(Wrap32(r.value), r.next))
  {
    PyReadWraps(s, p, oid);
    Pow2Of32();
    match DebugSkipAt(s, p, oid)
    case None =>
    case Some(q) =>
      if 0 <= q + 1 < |s| && s[q] == 1 {
        match BitsAt(s, q + 2, 5)
        case None =>
        case Some(lzc) =>
          assert Pow2(5) == 32;
          PowMono(32 - lzc.value, 32);
      }
  }

  /** Where the count fits in an `int`, a negative count gives Python's `[]`
      and the engine's capacity failure, and otherwise the engine reads the
      engine views of Python's entries (faulting where Python faults or a name
      is too long). Outside that range the two disagree on whether to read
      entries at all: a count of 2^31 or more is negative to the engine, and
      one below -2^31 is positive to it. */
  lemma PyResourcesAgree(s: seq<Bit>)
    ensures PyCountAt(s).None? ==> PyResourcesAt(s).None? && ResourcesAt(s).None?
    ensures PyCountAt(s).Some? && PyCountAt(s).value.value < TwoTo31 && PyResourcesAt(s).None? ==>
      ResourcesAt(s).None?
    ensures PyCountAt(s).Some? && MinInt32 <= PyCountAt(s).value.value < 0 ==>
      PyResourcesAt(s) == Some([]) && ResourcesAt(s) == Some(Failure(NegativeCapacity))
    ensures PyCountAt(s).Some? && 0 <= PyCountAt(s).value.value < TwoTo31 && PyResourcesAt(s).Some? ==>
      var es := PyResourcesAt(s).value;
      ResourcesAt(s) == if NamesFit(es) then Some(Success(EngineViews(es))) else None
    ensures PyCountAt(s).Some? && PyCountAt(s).value.value >= TwoTo31 ==>
      ResourcesAt(s) == Some(Failure(NegativeCapacity))
    ensures PyCountAt(s).Some? && PyCountAt(s).value.value < MinInt32 ==>
      PyResourcesAt(s) == Some([]) && CountAt(s).value.value == PyCountAt(s).value.value + TwoTo32 > 0
  {
    PyCountWraps(s);
    match PyCountAt(s)
    case None =>
    case Some(c) =>
      PyResourcesFrom(s, c, CountAt(s).value);
  }

  /** `PyResourcesAgree` once both counts are read. */
  lemma PyResourcesFrom(s: seq<Bit>, c: Read<int>, d: Read<int>)
    requires PyCountAt(s) == Some(c) && CountAt(s) == Some(d)
    requires -(TwoTo32 as int) < c.value < TwoTo32 && d == Read(Wrap32(c.value), c.next)
    ensures c.value < TwoTo31 && PyResourcesAt(s).None? ==> ResourcesAt(s).None?
    ensures MinInt32 <= c.value < 0 ==>
      PyResourcesAt(s) == Some([]) && ResourcesAt(s) == Some(Failure(NegativeCapacity))
    ensures 0 <= c.value < TwoTo31 && PyResourcesAt(s).Some? ==>
      var es := PyResourcesAt(s).value;
      ResourcesAt(s) == if NamesFit(es) then Some(Success(EngineViews(es))) else None
    ensures c.value >= TwoTo31 ==> ResourcesAt(s) == Some(Failure(NegativeCapacity))
    ensures c.value < MinInt32 ==> PyResourcesAt(s) == Some([]) && d.value == c.value + TwoTo32 > 0
  {
    WrapRange(c.value);
    if 0 <= c.value < TwoTo31 {
      PyEntriesAgree(s, c.next, c.value);
    }
  }

  /** `Wrap32` on the range a 32-bit magnitude and a sign can reach. */
  lemma WrapRange(x: int)
    requires -(TwoTo32 as int) < x < TwoTo32
    ensures IsInt32(x) ==> Wrap32(x) == x
    ensures x >= TwoTo31 ==> Wrap32(x) == x - TwoTo32
    ensures x < MinInt32 ==> Wrap32(x) == x + TwoTo32
  {
    if IsInt32(x) {
      Wrap32Id(x);
    } else if x < MinInt32 {
      ModShift(x, 1);
    }
  }

  // ---------------------------------------------------------------------------
  // read_u64_packed

  /** `read_u64_packed`: `(hi << 32) | lo` on Python integers, never negative. */
  function PyU64PackedAt(s: seq<Bit>, p: int, oid: int): Option<Read<int>>
  {
    var q :- DebugSkipAt(s, p, oid);
    var lo :- U32PackedAt(s, q, NoOid);
    var hi :- U32PackedAt(s, lo.next, NoOid);
    Some(Read(hi.value * TwoTo32 + lo.value, hi.next))
  }

  /** The engine reads the same fields; its `long` is Python's value
      reinterpreted as a signed 64-bit pattern, negative from 2^63 on. */
  lemma PyU64Agrees(s: seq<Bit>, p: int, oid: int)
    ensures PyU64PackedAt(s, p, oid).None? <==> U64PackedAt(s, p, oid).None?
    ensures PyU64PackedAt(s, p, oid).Some? ==>
      var r := PyU64PackedAt(s, p, oid).value;
      0 <= r.value < TwoTo64 && U64PackedAt(s, p, oid) == Some(Read(ToInt64(r.value), r.next))
  {
    match DebugSkipAt(s, p, oid)
    case None =>
    case Some(q) =>
      match U32PackedAt(s, q, NoOid)
      case None =>
      case Some(lo) =>
        match U32PackedAt(s, lo.next, NoOid)
        case None =>
        case Some(hi) =>
          U64Bound(hi.value, lo.value);
  }

  /** `hi * 2^32 + lo` of two 32-bit halves fits in 64 bits. */
  lemma U64Bound(hi: nat, lo: nat)
    requires hi < TwoTo32 && lo < TwoTo32
    ensures hi * TwoTo32 + lo < TwoTo64
  {
    assert hi * TwoTo32 <= (TwoTo32 - 1) * TwoTo32;
  }

  // ---------------------------------------------------------------------------
  // The patch list of modify_resources

  /** The patches `modify_resources` builds, in table order: one per entry
      whose name is modified, at the bit after the quantity's debug bit,
      replacing as many bits as `encode_i32_packed` gives for the quantity
      Python read and inserting its encoding of the new value. Python then
      sorts them by position, which they already are (`PlanChained`). */
  function PyPatchesFor(es: seq<PyResource>, mods: map<string, int>): (r: seq<Patch>)
    ensures |r| <= |es|
  {
    if es == [] then []
    else
      var front := PyPatchesFor(es[..|es| - 1], mods);
      var e := es[|es| - 1];
      if e.name in mods then
        front + [Patch(e.quantityBitPos + 1, |PyEncodeI32(e.quantity)|, PyEncodeI32(mods[e.name]))]
      else front
  }

  /** A value both encoders accept and agree on. */
  predicate Encodable(v: int)
  {
    IsInt32(v) && v != MinInt32
  }

  /** Where every modified entry's stored quantity and new value fit in an
      `int` other than `int.MinValue`, Python builds exactly the engine's
      patches over the engine's view of the table. */
  lemma {:induction false} PyPatchesAgree(es: seq<PyResource>, mods: map<string, Int32>)
    requires forall i :: 0 <= i < |es| && es[i].name in mods ==>
      Encodable(es[i].quantity) && Encodable(mods[es[i].name])
    ensures PatchesFor(EngineViews(es), mods) == Success(PyPatchesFor(es, mods))
  {
    if es != [] {
      var front, e := es[..|es| - 1], es[|es| - 1];
      assert es == front + [e];
      assert forall i :: 0 <= i < |front| ==> front[i] == es[i];
      PyPatchesAgree(front, mods);
      NamesFitSnoc(front, e);
      var v, ps := EngineView(e), PyPatchesFor(front, mods);
      if e.name in mods {
        Wrap32Id(e.quantity);
        PyEncodeAgrees(e.quantity);
        PyEncodeAgrees(mods[e.name]);
        assert I32Bits(v.quantity) == PyEncodeI32(e.quantity);
        assert I32Bits(mods[v.name]) == PyEncodeI32(mods[e.name]);
      }
      PatchesForSnoc(EngineViews(front), v, mods, ps);
      PyPatchesSnoc(front, e, mods);
    }
  }

  /** One more entry in Python's patch list. */
  lemma PyPatchesSnoc(front: seq<PyResource>, e: PyResource, mods: map<string, int>)
    ensures PyPatchesFor(front + [e], mods) == if e.name in mods then
      PyPatchesFor(front, mods) + [Patch(e.quantityBitPos + 1, |PyEncodeI32(e.quantity)|, PyEncodeI32(mods[e.name]))]
      else PyPatchesFor(front, mods)
  {
    assert (front + [e])[..|front|] == front;
  }

  /** One more entry in the engine's patch list, when both of its encodings succeed. */
  lemma PatchesForSnoc(front: seq<ResourceEntry>, x: ResourceEntry, mods: map<string, Int32>, ps: seq<Patch>)
    requires PatchesFor(front, mods) == Success(ps)
    requires x.name in mods ==> x.quantity != MinInt32 && mods[x.name] != MinInt32
    ensures PatchesFor(front + [x], mods) == Success(
      if x.name in mods then ps + [Patch(x.quantityBitPos + 1, |I32Bits(x.quantity)|, I32Bits(mods[x.name]))]
      else ps)
  {
    assert (front + [x])[..|front|] == front;
  }

  /** Outside that domain the two lists differ. A stored magnitude of
      2^32 - 1 with a clear sign bit is 4294967295 to Python, which replaces
      39 bits, but -1 to the engine, which replaces 8. */
  lemma PyPatchesDiverge()
    ensures var e := PyResource(0, "Dilithium", TwoTo32 - 1, 100, false);
      var mods := map["Dilithium" := 5];
      PyPatchesFor([e], mods) == [Patch(101, 39, PyEncodeI32(5))] &&
      PatchesFor(EngineViews([e]), mods) == Success([Patch(101, 8, I32Bits(5))])
  {
    var e := PyResource(0, "Dilithium", TwoTo32 - 1, 100, false);
    var mods: map<string, Int32> := map["Dilithium" := 5];
    Pow2Of32();
    BitLengthFits(TwoTo32 - 1, 32);
    BitLengthFits(TwoTo32 - 1, 31);
    assert BitLength(TwoTo32 - 1) == 32;
    assert |PyEncodeI32(TwoTo32 - 1)| == 39;
    assert [e][..0] == [];
    var v := EngineView(e);
    assert v.quantity == -1;
    assert BitLength(1) == 1;
    assert |I32Bits(-1)| == 8;
    assert EngineViews([e]) == [v];
    assert [] + [v] == [v];
    assert v.name in mods && mods[v.name] == 5 && v.quantityBitPos + 1 == 101;
    PatchesForSnoc([], v, mods, []);
    var patch := Patch(101, 8, I32Bits(5));
    assert [] + [patch] == [patch];
  }

  /** A new value whose magnitude is a nonzero multiple of 2^32 has no set bit
      among bits 31 to 0: Python writes a count of 32, whose low five bits are
      0, and no magnitude bits. A reader of the count expects 32 magnitude bits
      that were never written. */
  lemma PyEncodeWide(v: int)
    requires v != 0 && Magnitude(v) % TwoTo32 == 0
    ensures PyEncodeI32(v) == [1, if v < 0 then 1 else 0] + LowBits(0, 5)
    ensures Value(PyEncodeI32(v)[2..7]) == 0
  {
    assert BitLength(0) == 0;
    assert BitOf(32, 4) == BitOf(16, 3) == BitOf(8, 2) == BitOf(4, 1) == BitOf(2, 0) == 0;
    assert BitOf(32, 3) == BitOf(16, 2) == BitOf(8, 1) == BitOf(4, 0) == 0;
    assert BitOf(32, 2) == BitOf(16, 1) == BitOf(8, 0) == 0;
    assert LowBits(32, 5) == LowBits(0, 5);
    var r := PyEncodeI32(v);
    assert r[2..7] == LowBits(0, 5);
    ValueOfLowBits(0, 5);
  }

  // ---------------------------------------------------------------------------
  // The size fields in modify_resources

  /** What `modify_resources` writes into a size field: the field's old 32
      bits read unsigned, plus the delta. `write_bits` keeps bit `i < 32` of
      that sum, which for a negative sum is bit `i` of its two's complement,
      that is of the sum modulo 2^32. */
  function PySizeBits(field: seq<Bit>, delta: int): (r: seq<Bit>)
    ensures |r| == 32
  {
    LowBits((Value(field) + delta) % TwoTo32, 32)
  }

  /** Python and the engine write the same bits into a size field: the engine's
      wrapped `int` sum has the pattern of Python's unbounded one. */
  lemma PySizeAgrees(field: seq<Bit>, delta: int)
    requires |field| == 32
    ensures PySizeBits(field, delta) == PatternWindow(Pattern32(Wrap32(Int32Of(field) + delta)), 32)
  {
    Int32OfValue(field);
    var u := Value(field);
    var x := Int32Of(field) + delta;
    assert Pattern32(Wrap32(x)) == x % TwoTo32;
    if u >= TwoTo31 {
      assert x == u + delta - TwoTo32;
      ModShift(u + delta, -1);
    }
    assert Pattern32(Wrap32(x)) == (u + delta) % TwoTo32;
    var w := PatternWindow(Pattern32(Wrap32(x)), 32);
    assert forall i :: 0 <= i < 32 ==> w[i] == BitOf(Pattern32(Wrap32(x)), i);
  }
}
