/** The chunk navigator: the walk over the fixed chunk skeleton that starts at
    bit 128, the resource table inside `cser`, the scan for the `shct` marker
    inside `tsnc` and the hull-integrity field after it. Tags are four ASCII
    letters read as a little-endian number. */
module Navigator {
  import opened Wrappers
  import opened BitMath
  import opened BitWriter
  import opened StreamFormat
  import opened Reader

  const TagRict: int := 0x7463_6972  // "rict"
  const TagRinm: int := 0x6d6e_6972  // "rinm"
  const TagShct: int := 0x7368_6374  // "shct"

  /** The bit where the first chunk header starts, after the 16-byte file header. */
  const SkeletonStart: int := 128

  // ---------------------------------------------------------------------------
  // The chunk skeleton

  /** One move of the walk: read the next chunk header, or skip the chunk whose
      header was read last. */
  datatype NavStep = ReadHeader | SkipLast

  /** Where a walk has got to: the headers read so far, in order, and the cursor. */
  datatype Trail = Trail(headers: seq<ChunkHeader>, pos: int)

  /** What a walk reads with: the header reader (`ReadChunkHeader` at a
      position) and the chunk skipper (`SkipChunk` of a header). */
  type HeaderReader = int -> Option<Read<ChunkHeader>>
  type ChunkSkipper = ChunkHeader -> Option<int>

  /** `ChunkHeaderAt` on `s`, as a header reader. */
  function HeaderDecoder(s: seq<Bit>): HeaderReader
  {
    (p: int) => ChunkHeaderAt(s, p)
  }

  /** `SkipChunkAt` on `s`, as a chunk skipper. */
  function SkipDecoder(s: seq<Bit>): ChunkSkipper
  {
    (h: ChunkHeader) => SkipChunkAt(s, h)
  }

  /** One move from `t`; `None` where the reader would fault. */
  function Advance(hd: HeaderReader, sk: ChunkSkipper, t: Trail, step: NavStep): Option<Trail>
  {
    match step
    case ReadHeader =>
      var h :- hd(t.pos);
      Some(Trail(t.headers + [h.value], h.next))
    case SkipLast =>
      if t.headers == [] then None
      else
        var q :- sk(t.headers[|t.headers| - 1]);
        Some(Trail(t.headers, q))
  }

  /** The two fixed routes through the skeleton. */
  datatype Route = ToCser | ToTsnc

  /** The number of moves of a route. */
  function RouteLength(route: Route): nat
  {
    if route == ToCser then 6 else 12
  }

  /** Move `k` of a route. To `cser`: read `parw`, read `daeh`, skip it, read
      `emag`, `trts` and `cser`. To `tsnc`: the same, then skip `cser`, read and
      skip `psjv`, read and skip `tces`, read `tsnc`. */
  function RouteStep(route: Route, k: nat): NavStep
  {
    if k == 2 || (route == ToTsnc && (k == 6 || k == 8 || k == 10)) then SkipLast else ReadHeader
  }

  /** The first `n` moves of `route` from bit 128, one after the other. */
  function WalkBy(hd: HeaderReader, sk: ChunkSkipper, route: Route, n: nat): Option<Trail>
  {
    if n == 0 then Some(Trail([], SkeletonStart))
    else
      match WalkBy(hd, sk, route, n - 1)
      case None => None
      case Some(t) => Advance(hd, sk, t, RouteStep(route, n - 1))
  }

  /** The first `n` moves of `route` over the stream `s`. */
  function Walk(s: seq<Bit>, route: Route, n: nat): Option<Trail>
  {
    WalkBy(HeaderDecoder(s), SkipDecoder(s), route, n)
  }

  /** Where `NavigateToCser` leaves the reader, with the five headers it read. */
  function CserWalk(s: seq<Bit>): Option<Trail>
  {
    Walk(s, ToCser, 6)
  }

  /** Where `NavigateToTsnc` leaves the reader, with the eight headers it read. */
  function TsncWalk(s: seq<Bit>): Option<Trail>
  {
    Walk(s, ToTsnc, 12)
  }

  /** The size fields `GetChunkSizePositions` lists: those of `parw`, `emag`,
      `trts` and `cser`, in traversal order (the skipped `daeh` is not among them). */
  function SizePositions(t: Trail): seq<int>
    requires |t.headers| == 5
  {
    [t.headers[0].sizePos, t.headers[2].sizePos, t.headers[3].sizePos, t.headers[4].sizePos]
  }

  /** The 32-bit size field of `h` holds `h.size` and ends where its data starts. */
  ghost predicate SizeFieldAt(s: seq<Bit>, h: ChunkHeader)
  {
    IntBitsAt(s, h.sizePos, 32) == Some(Read(h.size, h.dataStart))
  }

  /** `NavigateToCser`: a reader on `data` at bit 128 walked to just after the
      `cser` header, and that header. */
  method NavigateToCser(data: array<byte>) returns (r: BitReader, cser: ChunkHeader)
    requires CserWalk(Bits(data[..])).Some?
    ensures fresh(r) && r.data == data && r.stream == Bits(data[..]) && r.Valid()
    ensures var t := CserWalk(Bits(data[..])).value;
      |t.headers| == 5 && cser == t.headers[4] && r.Pos == t.pos
  {
    r := new BitReader(data, SkeletonStart);
    var parw, emag, trts;
    ghost var t;
    parw, emag, trts, cser, t := WalkToCser(r);
  }

  /** `NavigateToTsnc`: the walk continues past `cser`, skipping it, `psjv` and
      `tces`, and stops just after the `tsnc` header. */
  method NavigateToTsnc(data: array<byte>) returns (r: BitReader, tsnc: ChunkHeader)
    requires TsncWalk(Bits(data[..])).Some?
    ensures fresh(r) && r.data == data && r.stream == Bits(data[..]) && r.Valid()
    ensures var t := TsncWalk(Bits(data[..])).value;
      |t.headers| == 8 && tsnc == t.headers[7] && r.Pos == t.pos
  {
    r := new BitReader(data, SkeletonStart);
    var parw, emag, trts, cser;
    ghost var t;
    TsncPassesCser(r.stream);
    parw, emag, trts, cser, t := WalkToCser(r);
    RoutesAgree(HeaderDecoder(r.stream), SkipDecoder(r.stream), 6);
    tsnc, t := WalkPastCser(r, cser, t);
  }

  /** `GetChunkSizePositions`: the walk to `cser` again, returning the positions of
      the 32-bit size fields of `parw`, `emag`, `trts` and `cser`. */
  method GetChunkSizePositions(data: array<byte>) returns (positions: seq<int>)
    requires CserWalk(Bits(data[..])).Some?
    ensures var t := CserWalk(Bits(data[..])).value;
      |t.headers| == 5 && positions == SizePositions(t)
    ensures |positions| == 4
    ensures forall i :: 0 <= i < 4 ==> IntBitsAt(Bits(data[..]), positions[i], 32).Some?
  {
    var r := new BitReader(data, SkeletonStart);
    var parw, emag, trts, cser;
    ghost var t;
    parw, emag, trts, cser, t := WalkToCser(r);
    positions := [parw.sizePos, emag.sizePos, trts.sizePos, cser.sizePos];
  }

  /** The first six moves, which the three operations above share word for word:
      read `parw` and `daeh`, skip `daeh`, read `emag`, `trts` and `cser`. */
  method WalkToCser(r: BitReader)
    returns (parw: ChunkHeader, emag: ChunkHeader, trts: ChunkHeader, cser: ChunkHeader, ghost t: Trail)
    requires r.Valid() && r.Pos == SkeletonStart && CserWalk(r.stream).Some?
    modifies r
    ensures CserWalk(r.stream) == Some(t) && r.Pos == t.pos
    ensures |t.headers| == 5 && t.headers[0] == parw && t.headers[2] == emag && t.headers[3] == trts && t.headers[4] == cser
    ensures SizeFieldAt(r.stream, parw) && SizeFieldAt(r.stream, emag) && SizeFieldAt(r.stream, trts) && SizeFieldAt(r.stream, cser)
  {
    parw, t := OpenSkeleton(r);
    emag, trts, cser, t := ReadTrio(r, t);
  }

  /** Moves 3 to 5 of the route to `cser`: read `emag`, `trts` and `cser`. */
  method ReadTrio(r: BitReader, ghost t: Trail)
    returns (emag: ChunkHeader, trts: ChunkHeader, cser: ChunkHeader, ghost t': Trail)
    requires r.Valid() && CserWalk(r.stream).Some?
    requires Walk(r.stream, ToCser, 3) == Some(t) && r.Pos == t.pos
    modifies r
    ensures Walk(r.stream, ToCser, 6) == Some(t') && r.Pos == t'.pos
    ensures t'.headers == t.headers + [emag, trts, cser]
    ensures SizeFieldAt(r.stream, emag) && SizeFieldAt(r.stream, trts) && SizeFieldAt(r.stream, cser)
  {
    ghost var k := 3;
    emag, t' := ReadNext(r, ToCser, k, t);
    trts, t' := ReadNext(r, ToCser, k + 1, t');
    cser, t' := ReadNext(r, ToCser, k + 2, t');
  }

  /** Moves 0 to 2 of either route: read `parw`, read `daeh` and skip it. */
  method OpenSkeleton(r: BitReader) returns (parw: ChunkHeader, ghost t: Trail)
    requires r.Valid() && r.Pos == SkeletonStart && CserWalk(r.stream).Some?
    modifies r
    ensures Walk(r.stream, ToCser, 3) == Some(t) && r.Pos == t.pos
    ensures |t.headers| == 2 && t.headers[0] == parw && SizeFieldAt(r.stream, parw)
  {
    t := Trail([], SkeletonStart);
    parw, t := ReadNext(r, ToCser, 0, t);
    var daeh; daeh, t := ReadNext(r, ToCser, 1, t);
    t := SkipLastRead(r, ToCser, 2, t, daeh);
  }

  /** Moves 6 to 11 of the route to `tsnc`: skip `cser`, read and skip `psjv`, read
      and skip `tces`, read `tsnc`. */
  method WalkPastCser(r: BitReader, cser: ChunkHeader, ghost t: Trail) returns (tsnc: ChunkHeader, ghost t': Trail)
    requires r.Valid() && TsncWalk(r.stream).Some?
    requires Walk(r.stream, ToTsnc, 6) == Some(t) && r.Pos == t.pos
    requires |t.headers| == 5 && t.headers[4] == cser
    modifies r
    ensures TsncWalk(r.stream) == Some(t') && r.Pos == t'.pos
    ensures |t'.headers| == 8 && t'.headers[7] == tsnc
  {
    t' := SkipPsjv(r, cser, t);
    var tces; tces, t' := ReadNext(r, ToTsnc, 9, t');
    t' := SkipLastRead(r, ToTsnc, 10, t', tces);
    tsnc, t' := ReadNext(r, ToTsnc, 11, t');
  }

  /** Moves 6 to 8 of the route to `tsnc`: skip `cser`, read and skip `psjv`. */
  method SkipPsjv(r: BitReader, cser: ChunkHeader, ghost t: Trail) returns (ghost t': Trail)
    requires r.Valid() && TsncWalk(r.stream).Some?
    requires Walk(r.stream, ToTsnc, 6) == Some(t) && r.Pos == t.pos
    requires |t.headers| == 5 && t.headers[4] == cser
    modifies r
    ensures Walk(r.stream, ToTsnc, 9) == Some(t') && r.Pos == t'.pos && |t'.headers| == 6
  {
    t' := SkipLastRead(r, ToTsnc, 6, t, cser);
    var psjv; psjv, t' := ReadNext(r, ToTsnc, 7, t');
    t' := SkipLastRead(r, ToTsnc, 8, t', psjv);
  }

  /** `r.ReadChunkHeader()` as move `k` of `route`. */
  method ReadNext(r: BitReader, ghost route: Route, ghost k: nat, ghost t: Trail)
    returns (h: ChunkHeader, ghost t': Trail)
    requires r.Valid() && Walk(r.stream, route, RouteLength(route)).Some?
    requires k < RouteLength(route) && RouteStep(route, k) == ReadHeader
    requires Walk(r.stream, route, k) == Some(t) && r.Pos == t.pos
    modifies r
    ensures Walk(r.stream, route, k + 1) == Some(t') && r.Pos == t'.pos && t'.headers == t.headers + [h]
    ensures SizeFieldAt(r.stream, h)
  {
    WalkPrefix(HeaderDecoder(r.stream), SkipDecoder(r.stream), route, RouteLength(route), k + 1);
    h := r.ReadChunkHeader();
    t' := Trail(t.headers + [h], r.Pos);
  }

  /** `r.SkipChunk(h)` as move `k` of `route`, `h` being the header read last. */
  method SkipLastRead(r: BitReader, ghost route: Route, ghost k: nat, ghost t: Trail, h: ChunkHeader)
    returns (ghost t': Trail)
    requires r.Valid() && Walk(r.stream, route, RouteLength(route)).Some?
    requires k < RouteLength(route) && RouteStep(route, k) == SkipLast
    requires Walk(r.stream, route, k) == Some(t) && r.Pos == t.pos
    requires t.headers != [] && h == t.headers[|t.headers| - 1]
    modifies r
    ensures Walk(r.stream, route, k + 1) == Some(t') && r.Pos == t'.pos && t'.headers == t.headers
  {
    WalkPrefix(HeaderDecoder(r.stream), SkipDecoder(r.stream), route, RouteLength(route), k + 1);
    r.SkipChunk(h);
    t' := Trail(t.headers, r.Pos);
  }

  // ---------------------------------------------------------------------------
  // Lemmas about the walk

  /** A walk that succeeds succeeded at every earlier point. */
  lemma {:induction false} WalkPrefix(hd: HeaderReader, sk: ChunkSkipper, route: Route, n: nat, k: nat)
    requires k <= n && WalkBy(hd, sk, route, n).Some?
    ensures WalkBy(hd, sk, route, k).Some?
  {
    if k < n {
      WalkPrefix(hd, sk, route, n - 1, k);
    }
  }

  /** The two routes agree on their first six moves. */
  lemma {:induction false} RoutesAgree(hd: HeaderReader, sk: ChunkSkipper, n: nat)
    requires n <= 6
    ensures WalkBy(hd, sk, ToTsnc, n) == WalkBy(hd, sk, ToCser, n)
  {
    if n > 0 {
      RoutesAgree(hd, sk, n - 1);
    }
  }

  /** The number of headers the first `n` moves of `route` read. */
  function ReadCount(route: Route, n: nat): nat
  {
    if n == 0 then 0
    else ReadCount(route, n - 1) + (if RouteStep(route, n - 1) == ReadHeader then 1 else 0)
  }

  /** A walk holds one header per `ReadHeader` move, and the headers an earlier
      point of the walk held begin the later list. */
  lemma {:induction false} WalkHeaders(hd: HeaderReader, sk: ChunkSkipper, route: Route, k: nat, n: nat)
    requires k <= n && WalkBy(hd, sk, route, n).Some?
    ensures WalkBy(hd, sk, route, k).Some?
    ensures var early := WalkBy(hd, sk, route, k).value.headers;
      var late := WalkBy(hd, sk, route, n).value.headers;
      |late| == ReadCount(route, n) && |early| <= |late| && late[..|early|] == early
  {
    if n > 0 {
      WalkHeaders(hd, sk, route, if k < n then k else n - 1, n - 1);
      var mid := WalkBy(hd, sk, route, n - 1).value.headers;
      var late := WalkBy(hd, sk, route, n).value.headers;
      assert late[..|mid|] == mid;
    }
  }

  /** `NavigateToTsnc` passes through `cser`: a successful walk to `tsnc` has made
      the walk to `cser` as its first six moves, and the five headers that walk
      read are the first five of the eight the walk to `tsnc` reads. */
  lemma TsncPassesCser(s: seq<Bit>)
    requires TsncWalk(s).Some?
    ensures CserWalk(s).Some? && CserWalk(s) == Walk(s, ToTsnc, 6)
    ensures var c := CserWalk(s).value.headers;
      var t := TsncWalk(s).value.headers;
      |c| == 5 && |t| == 8 && t[..5] == c
  {
    var hd, sk := HeaderDecoder(s), SkipDecoder(s);
    WalkHeaders(hd, sk, ToTsnc, 6, 12);
    RoutesAgree(hd, sk, 6);
    WalkHeaders(hd, sk, ToCser, 6, 6);
    RouteCounts();
  }

  /** The route to `cser` reads five headers, the route to `tsnc` eight. */
  lemma RouteCounts()
    ensures ReadCount(ToCser, 6) == 5 && ReadCount(ToTsnc, 12) == 8
  {
  }

  /** Every point the first `n` moves of `route` pass through is at most `lo`:
      no chunk skip on the way jumps past `lo`. */
  ghost predicate WalkWithin(s: seq<Bit>, route: Route, n: nat, lo: int)
  {
    forall k :: 0 <= k <= n ==> Walk(s, route, k).Some? && Walk(s, route, k).value.pos <= lo
  }

  /** A walk within `lo` is within any larger bound. */
  lemma WalkWithinMono(s: seq<Bit>, route: Route, n: nat, lo: int, hi: int)
    requires WalkWithin(s, route, n, lo) && lo <= hi
    ensures WalkWithin(s, route, n, hi)
  {
  }

  /** The walk to `tsnc` ends where the data of `tsnc`, the last header it
      reads, starts. */
  lemma TsncWalkEnd(s: seq<Bit>)
    requires TsncWalk(s).Some?
    ensures var t := TsncWalk(s).value;
      |t.headers| == 8 && t.pos == t.headers[7].dataStart
  {
    TsncPassesCser(s);
    var hd := HeaderDecoder(s);
    ReadStep(hd, SkipDecoder(s), ToTsnc, 12);
    var front := WalkBy(hd, SkipDecoder(s), ToTsnc, 11).value;
    assert hd(front.pos) == ChunkHeaderAt(s, front.pos);
    HeaderEndsAtData(s, front.pos);
    var h := ChunkHeaderAt(s, front.pos).value;
    var headers := front.headers + [h.value];
    assert TsncWalk(s).value == Trail(headers, h.next);
    assert headers[|headers| - 1] == h.value;
  }

  /** A move that reads a header appends it and stops where it ends. */
  lemma ReadStep(hd: HeaderReader, sk: ChunkSkipper, route: Route, n: nat)
    requires 0 < n && RouteStep(route, n - 1) == ReadHeader && WalkBy(hd, sk, route, n).Some?
    ensures WalkBy(hd, sk, route, n - 1).Some?
    ensures var t := WalkBy(hd, sk, route, n - 1).value;
      hd(t.pos).Some? && WalkBy(hd, sk, route, n).value == Trail(t.headers + [hd(t.pos).value.value], hd(t.pos).value.next)
  {
  }

  /** A walk all of whose points are at most `lo` reads the same headers and
      stops at the same place in any stream with the same bits before `lo`. */
  lemma {:induction false} WalkFrame(s: seq<Bit>, w: seq<Bit>, lo: int, route: Route, n: nat)
    requires SameBefore(s, w, lo) && WalkWithin(s, route, n, lo)
    ensures Walk(w, route, n) == Walk(s, route, n)
  {
    if n > 0 {
      assert WalkWithin(s, route, n - 1, lo);
      WalkFrame(s, w, lo, route, n - 1);
      var t := Walk(s, route, n - 1).value;
      var next := Walk(s, route, n).value;
      StepFrame(s, w, lo, t, RouteStep(route, n - 1), next);
    }
  }

  /** One move of the walk, ending by `lo`, agrees. */
  lemma StepFrame(s: seq<Bit>, w: seq<Bit>, lo: int, t: Trail, step: NavStep, next: Trail)
    requires SameBefore(s, w, lo) && Advance(HeaderDecoder(s), SkipDecoder(s), t, step) == Some(next) && next.pos <= lo
    ensures Advance(HeaderDecoder(w), SkipDecoder(w), t, step) == Some(next)
  {
    match step
    case ReadHeader =>
      ChunkHeaderFrame(s, w, lo, t.pos);
    case SkipLast =>
      SkipChunkFrame(s, w, lo, t.headers[|t.headers| - 1]);
  }
}
