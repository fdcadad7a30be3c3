/** The hull-integrity field of the `tsnc` chunk. It has no fixed offset: the
    navigator scans the chunk bit by bit for a set debug bit followed by the
    32-bit object id `shct`, reads the packed value that marker introduces,
    and finds the field's 32 raw bits eight bits after it. The float is kept as
    its raw 32-bit pattern. */
module HullIntegrity {
  import opened Wrappers
  import opened BitMath
  import opened BitWriter
  import opened StreamFormat
  import opened Reader
  import opened Navigator

  /** The hull field: the float's raw bit pattern and where its 32 bits start. */
  datatype HullData = HullData(raw: int, bitPos: int)

  /** A `shct` marker at `m`: a set bit followed by the 32-bit tag. */
  ghost predicate IsMarker(s: seq<Bit>, m: int)
  {
    0 <= m && m + 33 <= |s| && s[m] == 1 && Int32Of(s[m + 1..m + 33]) == TagShct
  }

  /** The scan of `FindShctPosition` from `pos` while `pos < limit`: `None` where
      it faults reading past the buffer, `Some(None)` when it runs out of
      positions, `Some(Some(q))` when it finds a marker whose packed value ends at
      `q`. */
  function ScanFrom(s: seq<Bit>, pos: int, limit: int): Option<Option<int>>
    decreases limit - pos
  {
    if limit <= pos then Some(None)
    else if !(0 <= pos < |s|) then None
    else if s[pos] == 1 && |s| < pos + 33 then None
    else if s[pos] == 1 && Int32Of(s[pos + 1..pos + 33]) == TagShct then
      var r :- I32PackedAt(s, pos, TagShct);
      Some(Some(r.next))
    else ScanFrom(s, pos + 1, limit)
  }

  /** The bound of the scan: `tsnc.DataEnd - 33` in C# `int` arithmetic. */
  function ScanLimit(tsnc: ChunkHeader): int
  {
    Wrap32(tsnc.dataEnd - 33)
  }

  /** `FindShctPosition`: the cursor after the packed value the first marker in
      `tsnc` introduces, or nothing when no marker is found. */
  method FindShctPosition(data: array<byte>, tsnc: ChunkHeader) returns (found: Option<int>)
    requires ScanFrom(Bits(data[..]), tsnc.dataStart, ScanLimit(tsnc)).Some?
    ensures Some(found) == ScanFrom(Bits(data[..]), tsnc.dataStart, ScanLimit(tsnc))
  {
    ghost var s := Bits(data[..]);
    var limit := ScanLimit(tsnc);
    var pos := tsnc.dataStart;
    while pos < limit
      invariant ScanFrom(s, pos, limit) == ScanFrom(s, tsnc.dataStart, limit)
      decreases limit - pos
    {
      var bit := GetBit(data[..], pos);
      if bit == 1 {
        var val := ReadBitsAt(data, pos + 1, 32);
        if val == TagShct {
          var r := new BitReader(data, pos);
          var _ := r.ReadI32Packed(TagShct);
          return Some(r.Pos);
        }
      }
      pos := pos + 1;
    }
    return None;
  }

  /** `ReadHullIntegrity` on a stream: walk to `tsnc`, scan it for the marker and
      read the 32 bits eight bits after the marker's value. `None` where the
      source faults; a missing marker fails. */
  function HullAt(s: seq<Bit>): Option<Result<HullData, Error>>
  {
    match TsncWalk(s)
    case None => None
    case Some(t) =>
      TsncHeaders(s, t);
      var tsnc := t.headers[7];
      HullAfter(s, tsnc)
  }

  /** `ReadHullIntegrity` from the point where the `tsnc` header has been read. */
  function HullAfter(s: seq<Bit>, tsnc: ChunkHeader): Option<Result<HullData, Error>>
  {
    var found :- ScanFrom(s, tsnc.dataStart, ScanLimit(tsnc));
    HullField(s, found)
  }

  /** The field eight bits after the marker's value, once the scan is over. */
  function HullField(s: seq<Bit>, found: Option<int>): Option<Result<HullData, Error>>
  {
    if found.None? then Some(Failure(ShctNotFound))
    else
      var hullPos := found.value + 8;
      var raw :- IntBitsAt(s, hullPos, 32);
      Some(Success(HullData(raw.value, hullPos)))
  }

  /** `ReadHullIntegrity`. */
  method ReadHullIntegrity(data: array<byte>) returns (res: Result<HullData, Error>)
    requires HullAt(Bits(data[..])).Some?
    ensures Some(res) == HullAt(Bits(data[..]))
  {
    var r, tsnc := NavigateToTsnc(data);
    var afterShct := FindShctPosition(data, tsnc);
    if afterShct.None? {
      return Failure(ShctNotFound);
    }
    var hullPos := afterShct.value + 8;
    var raw := ReadBitsAt(data, hullPos, 32);
    return Success(HullData(raw, hullPos));
  }

  /** `SetHullIntegrity`, given the new float as its raw 32-bit pattern: the
      field found by `ReadHullIntegrity` is overwritten and nothing else. When
      the marker is missing, nothing is written. */
  method SetHullIntegrity(data: array<byte>, newRaw: int) returns (res: Result<HullData, Error>)
    requires IsInt32(newRaw)
    requires HullAt(Bits(data[..])).Some?
    modifies data
    ensures Some(res) == HullAt(Bits(old(data[..])))
    ensures res.Failure? ==> data[..] == old(data[..])
    ensures res.Success? ==>
      Bits(data[..]) == Overwrite(Bits(old(data[..])), res.value.bitPos, PatternWindow(Pattern32(newRaw), 32))
    ensures res.Success? && ReWalkable(Bits(old(data[..]))) ==>
      HullAt(Bits(data[..])) == Some(Success(HullData(newRaw, res.value.bitPos)))
  {
    ghost var s := Bits(data[..]);
    res := ReadHullIntegrity(data);
    if res.Failure? {
      return;
    }
    WriteBits(data, res.value.bitPos, newRaw, 32);
    if ReWalkable(s) {
      HullRewrite(s, newRaw, res.value);
    }
  }

  // ---------------------------------------------------------------------------
  // Lemmas

  /** A scan that finds something found the first marker at or after `pos`,
      before `limit`, and returns where the marker's packed value ends. */
  lemma {:induction false} ScanFinds(s: seq<Bit>, pos: int, limit: int) returns (m: int)
    requires ScanFrom(s, pos, limit).Some? && ScanFrom(s, pos, limit).value.Some?
    ensures pos <= m < limit && IsMarker(s, m)
    ensures forall k :: pos <= k < m ==> !IsMarker(s, k)
    ensures I32PackedAt(s, m, TagShct).Some? && I32PackedAt(s, m, TagShct).value.next == ScanFrom(s, pos, limit).value.value
    decreases limit - pos
  {
    if s[pos] == 1 && Int32Of(s[pos + 1..pos + 33]) == TagShct {
      m := pos;
    } else {
      m := ScanFinds(s, pos + 1, limit);
    }
  }

  /** A scan that finds nothing passed no marker between `pos` and `limit`. */
  lemma {:induction false} ScanMisses(s: seq<Bit>, pos: int, limit: int)
    requires ScanFrom(s, pos, limit) == Some(None)
    ensures forall k :: pos <= k < limit ==> !IsMarker(s, k)
    decreases limit - pos
  {
    if pos < limit {
      ScanMisses(s, pos + 1, limit);
    }
  }

  /** The walk to `tsnc` holds eight headers, `tsnc` the last. */
  lemma TsncHeaders(s: seq<Bit>, t: Trail)
    requires TsncWalk(s) == Some(t)
    ensures |t.headers| == 8
  {
    TsncPassesCser(s);
  }

  /** The hull field `ReadHullIntegrity` finds holds, after `SetHullIntegrity`,
      the new pattern as the 32 bits a fresh read there returns; every other bit
      keeps its value. */
  lemma HullWriteRead(s: seq<Bit>, pos: int, newRaw: int)
    requires IsInt32(newRaw) && 0 <= pos && pos + 32 <= |s|
    ensures var w := Overwrite(s, pos, PatternWindow(Pattern32(newRaw), 32));
      IntBitsAt(w, pos, 32) == Some(Read(newRaw, pos + 32)) &&
      forall k :: 0 <= k < |s| && !(pos <= k < pos + 32) ==> w[k] == s[k]
  {
    var w := Overwrite(s, pos, PatternWindow(Pattern32(newRaw), 32));
    WriteThenRead(s, pos, Pattern32(newRaw), 32);
    assert Int32Of(w[pos..pos + 32]) == newRaw by {
      Pow2Of32();
    }
  }

  /** A marker's packed value ends at least 34 bits after the marker: the set
      debug bit, the 32-bit tag and at least the presence bit. */
  lemma {:induction false} ScanEnd(s: seq<Bit>, pos: int, limit: int)
    requires ScanFrom(s, pos, limit).Some? && ScanFrom(s, pos, limit).value.Some?
    ensures pos + 34 <= ScanFrom(s, pos, limit).value.value
    decreases limit - pos
  {
    if s[pos] == 1 && Int32Of(s[pos + 1..pos + 33]) == TagShct {
      DebugSkipLayout(s, pos, TagShct);
    } else {
      ScanEnd(s, pos + 1, limit);
    }
  }

  /** A scan that finds a marker whose value ends by `lo` finds the same in
      any stream with the same bits before `lo`. */
  lemma {:induction false} ScanFrame(s: seq<Bit>, w: seq<Bit>, lo: int, pos: int, limit: int)
    requires SameBefore(s, w, lo)
    requires ScanFrom(s, pos, limit).Some? && ScanFrom(s, pos, limit).value.Some?
    requires ScanFrom(s, pos, limit).value.value <= lo
    ensures ScanFrom(w, pos, limit) == ScanFrom(s, pos, limit)
    decreases limit - pos
  {
    ScanEnd(s, pos, limit);
    SameMarker(s, w, lo, pos);
    if s[pos] == 1 && Int32Of(s[pos + 1..pos + 33]) == TagShct {
      I32PackedFrame(s, w, lo, pos, TagShct);
    } else {
      ScanFrame(s, w, lo, pos + 1, limit);
    }
  }

  /** Streams with the same bits before `lo` agree on a marker test that ends
      by `lo`. */
  lemma SameMarker(s: seq<Bit>, w: seq<Bit>, lo: int, pos: int)
    requires SameBefore(s, w, lo) && 0 <= pos && pos + 33 <= lo
    ensures w[pos] == s[pos] && w[pos + 1..pos + 33] == s[pos + 1..pos + 33]
  {
    assert w[pos] == w[..lo][pos] && s[pos] == s[..lo][pos];
    assert w[pos + 1..pos + 33] == w[..lo][pos + 1..pos + 33];
    assert s[pos + 1..pos + 33] == s[..lo][pos + 1..pos + 33];
  }

  /** The walk to `tsnc` succeeds and every position it passes through lies at
      or before the start of `tsnc`'s data. */
  ghost predicate ReWalkable(s: seq<Bit>)
  {
    TsncWalk(s).Some? && WalkWithin(s, ToTsnc, 12, TsncWalk(s).value.pos)
  }

  /** After `SetHullIntegrity` writes a new pattern, `ReadHullIntegrity` finds
      the same field and reads the new pattern back, provided every position
      the walk to `tsnc` passes through lies at or before the start of its data
      (then every bit the walk, the scan and the marker's value read lies
      before the field). */
  lemma HullRewrite(s: seq<Bit>, newRaw: int, h: HullData)
    requires IsInt32(newRaw) && HullAt(s) == Some(Success(h))
    requires TsncWalk(s).Some? && WalkWithin(s, ToTsnc, 12, TsncWalk(s).value.pos)
    ensures HullAt(Overwrite(s, h.bitPos, PatternWindow(Pattern32(newRaw), 32))) == Some(Success(HullData(newRaw, h.bitPos)))
  {
    var t := TsncWalk(s).value;
    TsncWalkEnd(s);
    HullAtVia(s, t);
    var w := Overwrite(s, h.bitPos, PatternWindow(Pattern32(newRaw), 32));
    RewriteAfter(s, w, t, h, newRaw);
    HullAtVia(w, t);
  }

  /** `HullRewrite` once the walk to `tsnc` is known: the rewritten stream
      walks the same way and the field after `tsnc` holds the new pattern. */
  lemma RewriteAfter(s: seq<Bit>, w: seq<Bit>, t: Trail, h: HullData, newRaw: int)
    requires IsInt32(newRaw) && TsncWalk(s) == Some(t) && |t.headers| == 8
    requires t.pos == t.headers[7].dataStart && WalkWithin(s, ToTsnc, 12, t.pos)
    requires HullAfter(s, t.headers[7]) == Some(Success(h))
    requires w == Overwrite(s, h.bitPos, PatternWindow(Pattern32(newRaw), 32))
    ensures TsncWalk(w) == Some(t)
    ensures HullAfter(w, t.headers[7]) == Some(Success(HullData(newRaw, h.bitPos)))
  {
    HullFound(s, h, t.headers[7]);
    PatternWritten(s, w, h.bitPos, newRaw);
    WalkWithinMono(s, ToTsnc, 12, t.pos, h.bitPos);
    WalkFrame(s, w, h.bitPos, ToTsnc, 12);
    HullAfterFrame(s, w, t.headers[7], h, newRaw);
  }

  /** `HullAt` reads the field after the last header of the walk to `tsnc`. */
  lemma HullAtVia(s: seq<Bit>, t: Trail)
    requires TsncWalk(s) == Some(t) && |t.headers| == 8
    ensures HullAt(s) == HullAfter(s, t.headers[7])
  {
  }

  /** Writing a pattern at `pos` keeps every bit before it and reads back. */
  lemma PatternWritten(s: seq<Bit>, w: seq<Bit>, pos: int, newRaw: int)
    requires IsInt32(newRaw) && 0 <= pos && pos + 32 <= |s|
    requires w == Overwrite(s, pos, PatternWindow(Pattern32(newRaw), 32))
    ensures SameBefore(s, w, pos) && IntBitsAt(w, pos, 32) == Some(Read(newRaw, pos + 32))
  {
    HullWriteRead(s, pos, newRaw);
    KeptBefore(s, w, pos);
  }

  /** Where `ReadHullIntegrity` found the field: eight bits after the value
      of the marker the scan of `tsnc` found, at least 42 bits past the start
      of its data, and inside the stream. */
  lemma HullFound(s: seq<Bit>, h: HullData, tsnc: ChunkHeader)
    requires HullAfter(s, tsnc) == Some(Success(h))
    ensures ScanFrom(s, tsnc.dataStart, ScanLimit(tsnc)) == Some(Some(h.bitPos - 8))
    ensures IntBitsAt(s, h.bitPos, 32) == Some(Read(h.raw, h.bitPos + 32))
    ensures tsnc.dataStart + 42 <= h.bitPos && h.bitPos + 32 <= |s|
  {
    var found := ScanFrom(s, tsnc.dataStart, ScanLimit(tsnc)).value;
    assert HullField(s, found) == Some(Success(h));
    ScanEnd(s, tsnc.dataStart, ScanLimit(tsnc));
    FieldFound(s, found, h);
  }

  /** The field `HullField` read: where it lies and what it holds. */
  lemma FieldFound(s: seq<Bit>, found: Option<int>, h: HullData)
    requires HullField(s, found) == Some(Success(h))
    ensures found == Some(h.bitPos - 8)
    ensures IntBitsAt(s, h.bitPos, 32) == Some(Read(h.raw, h.bitPos + 32))
    ensures 0 <= h.bitPos && h.bitPos + 32 <= |s|
  {
    FieldInStream(s, h.bitPos);
  }

  /** A field read of 32 bits lies inside the stream. */
  lemma FieldInStream(s: seq<Bit>, p: int)
    requires IntBitsAt(s, p, 32).Some?
    ensures 0 <= p && p + 32 <= |s|
  {
  }

  /** A stream that differs from `s` only at and after `lo` has the same bits
      before `lo`. */
  lemma KeptBefore(s: seq<Bit>, w: seq<Bit>, lo: int)
    requires |w| == |s| && 0 <= lo <= |s|
    requires forall k :: 0 <= k < |s| && !(lo <= k < lo + 32) ==> w[k] == s[k]
    ensures SameBefore(s, w, lo)
  {
    assert forall k :: 0 <= k < lo ==> w[..lo][k] == s[..lo][k];
  }

  /** The scan and the field read agree on a stream with the same bits before
      the field; the field reads whatever the new stream holds there. */
  lemma HullAfterFrame(s: seq<Bit>, w: seq<Bit>, tsnc: ChunkHeader, h: HullData, newRaw: int)
    requires HullAfter(s, tsnc) == Some(Success(h)) && SameBefore(s, w, h.bitPos)
    requires ScanFrom(s, tsnc.dataStart, ScanLimit(tsnc)) == Some(Some(h.bitPos - 8))
    requires IntBitsAt(w, h.bitPos, 32) == Some(Read(newRaw, h.bitPos + 32))
    ensures HullAfter(w, tsnc) == Some(Success(HullData(newRaw, h.bitPos)))
  {
    ScanFrame(s, w, h.bitPos, tsnc.dataStart, ScanLimit(tsnc));
  }
}
