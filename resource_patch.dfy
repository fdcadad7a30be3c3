/** `ModifyResources`: the quantities of the named resources are re-encoded, the
    new encodings are spliced into a freshly sized copy of the bit stream, the
    four chunk size fields the walk to `cser` reads are moved by the total change
    in length, and the first four bytes are set to the new byte length. */
module ResourcePatch {
  import opened Wrappers
  import opened BitMath
  import opened BitWriter
  import opened StreamFormat
  import opened Navigator
  import opened PackedEncoding
  import opened ResourceTable

  /** One splice: the `oldLen` bits at `pos` are replaced by `newBits`. */
  datatype Patch = Patch(pos: int, oldLen: nat, newBits: seq<Bit>)

  /** What `ModifyResources` works from: the patches in stream order and the
      size-field positions `GetChunkSizePositions` returns. */
  datatype Plan = Plan(patches: seq<Patch>, sizePositions: seq<int>)

  /** The patch list built from the table: one patch per entry whose name is a
      key of `mods`, at the quantity's presence bit, replacing as many bits as
      the current quantity's encoding takes by the new quantity's encoding. */
  function PatchesFor(es: seq<ResourceEntry>, mods: map<string, Int32>): Result<seq<Patch>, Error>
  {
    if es == [] then Success([])
    else
      var front :- PatchesFor(es[..|es| - 1], mods);
      var e := es[|es| - 1];
      if e.name in mods then
        var oldBits :- EncodeResult(e.quantity);
        var newBits :- EncodeResult(mods[e.name]);
        Success(front + [Patch(e.quantityBitPos + 1, |oldBits|, newBits)])
      else Success(front)
  }

  /** `ModifyResources` up to the point where it starts writing: `None` where
      the source faults reading, a failure where it throws. */
  function PlanAt(s: seq<Bit>, mods: map<string, Int32>): Option<Result<Plan, Error>>
  {
    var rs :- ResourcesAt(s);
    match rs
    case Failure(e) => Some(Failure(e))
    case Success(es) =>
      match CserWalk(s)
      case None => None
      case Some(t) =>
        CserHeaders(s, t);
        match PatchesFor(es, mods)
        case Failure(e) => Some(Failure(e))
        case Success(ps) => Some(Success(Plan(ps, SizePositions(t))))
  }

  /** The first half of `ModifyResources`: read the table and the size-field
      positions, then build the patch list. */
  method PlanPatches(data: array<byte>, modifications: map<string, Int32>) returns (r: Result<Plan, Error>)
    requires PlanAt(Bits(data[..]), modifications).Some?
    ensures Some(r) == PlanAt(Bits(data[..]), modifications)
  {
    var resources := ReadResources(data);
    if resources.Failure? {
      return Failure(resources.error);
    }
    var sizePositions := GetChunkSizePositions(data);
    var patches := BuildPatches(resources.value, modifications);
    if patches.Failure? {
      return Failure(patches.error);
    }
    return Success(Plan(patches.value, sizePositions));
  }

  /** The `foreach` over the table that builds the patch list. */
  method BuildPatches(resources: seq<ResourceEntry>, modifications: map<string, Int32>) returns (r: Result<seq<Patch>, Error>)
    ensures r == PatchesFor(resources, modifications)
  {
    var patches: seq<Patch> := [];
    var i := 0;
    while i < |resources|
      invariant 0 <= i <= |resources|
      invariant PatchesFor(resources[..i], modifications) == Success(patches)
    {
      var res := resources[i];
      PatchStep(resources, modifications, i, patches);
      if res.name in modifications {
        var oldBits := EncodeI32(res.quantity);
        if oldBits.Failure? {
          FailureSticks(resources, modifications, i + 1, |resources|);
          assert resources[..|resources|] == resources;
          return Failure(oldBits.error);
        }
        var newBits := EncodeI32(modifications[res.name]);
        if newBits.Failure? {
          FailureSticks(resources, modifications, i + 1, |resources|);
          assert resources[..|resources|] == resources;
          return Failure(newBits.error);
        }
        patches := patches + [Patch(res.quantityBitPos + 1, |oldBits.value|, newBits.value)];
      }
      i := i + 1;
    }
    assert resources[..i] == resources;
    return Success(patches);
  }

  /** One round of the loop in `BuildPatches`, after a successful prefix. */
  lemma PatchStep(es: seq<ResourceEntry>, mods: map<string, Int32>, i: nat, patches: seq<Patch>)
    requires i < |es| && PatchesFor(es[..i], mods) == Success(patches)
    ensures var e := es[i];
      PatchesFor(es[..i + 1], mods) ==
        if e.name !in mods then Success(patches)
        else if Unencodable(e, mods) then Failure(AbsOverflow)
        else Success(patches + [Patch(e.quantityBitPos + 1, |I32Bits(e.quantity)|, I32Bits(mods[e.name]))])
  {
    assert es[..i + 1][..i] == es[..i];
  }

  /** Once building the list has failed, it stays failed with the same error. */
  lemma {:induction false} FailureSticks(es: seq<ResourceEntry>, mods: map<string, Int32>, i: nat, n: nat)
    requires i <= n <= |es| && PatchesFor(es[..i], mods).Failure?
    ensures PatchesFor(es[..n], mods) == PatchesFor(es[..i], mods)
    decreases n
  {
    if i < n {
      FailureSticks(es, mods, i, n - 1);
      assert es[..n][..n - 1] == es[..n - 1];
    }
  }

  /** An entry `ModifyResources` cannot re-encode: it is to be modified, and its
      current or new quantity is `int.MinValue`. */
  predicate Unencodable(e: ResourceEntry, mods: map<string, Int32>)
  {
    e.name in mods && (e.quantity == MinInt32 || mods[e.name] == MinInt32)
  }

  /** Building the list fails exactly when some entry to modify cannot be
      re-encoded, and then with `Math.Abs`'s overflow. */
  lemma {:induction false} PatchesFail(es: seq<ResourceEntry>, mods: map<string, Int32>)
    ensures PatchesFor(es, mods).Failure? <==> exists i :: 0 <= i < |es| && Unencodable(es[i], mods)
    ensures PatchesFor(es, mods).Failure? ==> PatchesFor(es, mods).error == AbsOverflow
  {
    if es != [] {
      var front := es[..|es| - 1];
      PatchesFail(front, mods);
      assert forall i :: 0 <= i < |front| ==> front[i] == es[i];
      if exists i :: 0 <= i < |es| && Unencodable(es[i], mods) {
        var i :| 0 <= i < |es| && Unencodable(es[i], mods);
        if i < |front| {
          assert Unencodable(front[i], mods);
        }
      }
    }
  }

  /** The list is empty, and `ModifyResources` returns its input, exactly when
      no entry's name is a key of `mods`: other keys are ignored. */
  lemma {:induction false} NoMatchNoPatch(es: seq<ResourceEntry>, mods: map<string, Int32>)
    ensures PatchesFor(es, mods) == Success([]) <==> forall i :: 0 <= i < |es| ==> es[i].name !in mods
  {
    if es != [] {
      var front := es[..|es| - 1];
      NoMatchNoPatch(front, mods);
      assert forall i :: 0 <= i < |front| ==> front[i] == es[i];
    }
  }

  /** The patch an entry to modify contributes. */
  function PatchOf(e: ResourceEntry, mods: map<string, Int32>): Patch
    requires e.name in mods && !Unencodable(e, mods)
  {
    Patch(e.quantityBitPos + 1, |I32Bits(e.quantity)|, I32Bits(mods[e.name]))
  }

  /** Every patch comes from an entry whose name is a key of `mods`: it
      replaces that entry's quantity by the encoding of the new value. */
  lemma {:induction false} PatchSource(es: seq<ResourceEntry>, mods: map<string, Int32>, k: nat) returns (j: nat)
    requires PatchesFor(es, mods).Success? && k < |PatchesFor(es, mods).value|
    ensures j < |es| && es[j].name in mods && !Unencodable(es[j], mods)
    ensures PatchesFor(es, mods).value[k] == PatchOf(es[j], mods)
  {
    var n := |es| - 1;
    var front := PatchesFor(es[..n], mods).value;
    if k < |front| {
      j := PatchSource(es[..n], mods, k);
      assert es[..n][j] == es[j];
    } else {
      j := n;
    }
  }

  /** Every entry whose name is a key of `mods` contributes a patch, and the
      patches keep the order of the entries. */
  lemma {:induction false} EntryPatched(es: seq<ResourceEntry>, mods: map<string, Int32>, j: nat) returns (k: nat)
    requires PatchesFor(es, mods).Success? && j < |es| && es[j].name in mods
    ensures !Unencodable(es[j], mods)
    ensures k < |PatchesFor(es, mods).value| && PatchesFor(es, mods).value[k] == PatchOf(es[j], mods)
    ensures PatchesFor(es[..j], mods).Success? && k == |PatchesFor(es[..j], mods).value|
  {
    var n := |es| - 1;
    var front := PatchesFor(es[..n], mods).value;
    if j < n {
      k := EntryPatched(es[..n], mods, j);
      assert es[..n][j] == es[j];
      assert es[..n][..j] == es[..j];
    } else {
      assert es[..j] == es[..n];
      k := |front|;
    }
  }

  /** The list built from a prefix of the table is a prefix of the list. */
  lemma {:induction false} PatchesPrefix(es: seq<ResourceEntry>, mods: map<string, Int32>, j: nat)
    requires PatchesFor(es, mods).Success? && j <= |es|
    ensures PatchesFor(es[..j], mods).Success? && PatchesFor(es[..j], mods).value <= PatchesFor(es, mods).value
    decreases |es|
  {
    if j == |es| {
      assert es[..j] == es;
    } else {
      var n := |es| - 1;
      PatchesPrefix(es[..n], mods, j);
      assert es[..n][..j] == es[..j];
    }
  }

  /** The walk to `cser` holds five headers. */
  lemma CserHeaders(s: seq<Bit>, t: Trail)
    requires CserWalk(s) == Some(t)
    ensures |t.headers| == 5
  {
    WalkHeaders(HeaderDecoder(s), SkipDecoder(s), ToCser, 6, 6);
    RouteCounts();
  }

  // ---------------------------------------------------------------------------
  // The splice

  /** The total change in length, `Σ (newBits.Count - oldLen)`. */
  function Delta(ps: seq<Patch>): int
  {
    if ps == [] then 0
    else Delta(ps[..|ps| - 1]) + (|ps[|ps| - 1].newBits| - ps[|ps| - 1].oldLen)
  }

  /** Where the copy resumes after the first `k` patches (`srcPos`). */
  function SrcAfter(ps: seq<Patch>, k: nat): int
    requires k <= |ps|
  {
    if k == 0 then 0 else ps[k - 1].pos + ps[k - 1].oldLen
  }

  /** The patches lie inside a stream of `total` bits, each one starting at or
      after the end of the one before. */
  ghost predicate Chained(ps: seq<Patch>, total: int)
  {
    (forall k :: 0 <= k < |ps| ==> 0 <= SrcAfter(ps, k) <= ps[k].pos && ps[k].pos + ps[k].oldLen <= total) &&
    SrcAfter(ps, |ps|) <= total
  }

  /** The output of the first `k` rounds of the copy loop: for each patch, the
      unchanged bits up to it, then its new bits. */
  function Produced(s: seq<Bit>, ps: seq<Patch>, k: nat): seq<Bit>
    requires Chained(ps, |s|) && k <= |ps|
  {
    if k == 0 then []
    else Produced(s, ps, k - 1) + s[SrcAfter(ps, k - 1)..ps[k - 1].pos] + ps[k - 1].newBits
  }

  /** The spliced stream: every patch applied, then the rest of `s`. */
  function Spliced(s: seq<Bit>, ps: seq<Patch>): seq<Bit>
    requires Chained(ps, |s|)
  {
    Produced(s, ps, |ps|) + s[SrcAfter(ps, |ps|)..]
  }

  /** `n` zero bits. */
  function Zeros(n: nat): (r: seq<Bit>)
    ensures |r| == n
  {
    seq(n, _ => 0)
  }

  /** The bits after `k` rounds: what the loop wrote, shifted by the change in
      length of the patches before. */
  lemma {:induction false} ProducedLength(s: seq<Bit>, ps: seq<Patch>, k: nat)
    requires Chained(ps, |s|) && k <= |ps|
    ensures |Produced(s, ps, k)| == SrcAfter(ps, k) + Delta(ps[..k])
  {
    if k > 0 {
      ProducedLength(s, ps, k - 1);
      assert ps[..k][..k - 1] == ps[..k - 1];
    }
  }

  /** The spliced stream is longer than `s` by the total delta. */
  lemma SplicedLength(s: seq<Bit>, ps: seq<Patch>)
    requires Chained(ps, |s|)
    ensures |Spliced(s, ps)| == |s| + Delta(ps)
  {
    ProducedLength(s, ps, |ps|);
    assert ps[..|ps|] == ps;
  }

  /** What the first `j` rounds wrote is never rewritten by later rounds. */
  lemma {:induction false} ProducedGrows(s: seq<Bit>, ps: seq<Patch>, j: nat, k: nat)
    requires Chained(ps, |s|) && j <= k <= |ps|
    ensures |Produced(s, ps, j)| <= |Produced(s, ps, k)|
    ensures Produced(s, ps, k)[..|Produced(s, ps, j)|] == Produced(s, ps, j)
  {
    if j < k {
      ProducedGrows(s, ps, j, k - 1);
      var a := Produced(s, ps, k - 1);
      assert Produced(s, ps, k)[..|a|] == a;
    }
  }

  /** Round `k` of the copy loop lands at its shifted place in the spliced
      stream: the unchanged bits between the previous patch and patch `k` start
      at `SrcAfter + delta-so-far`, and patch `k`'s new bits start at its
      position shifted by the change in length of the patches before it. */
  lemma PatchLands(s: seq<Bit>, ps: seq<Patch>, k: nat)
    requires Chained(ps, |s|) && k < |ps|
    ensures var d := Delta(ps[..k]);
      var at := ps[k].pos + d;
      var out := Spliced(s, ps);
      0 <= SrcAfter(ps, k) + d <= at && at + |ps[k].newBits| <= |out| &&
      out[SrcAfter(ps, k) + d..at] == s[SrcAfter(ps, k)..ps[k].pos] &&
      out[at..at + |ps[k].newBits|] == ps[k].newBits
  {
    ProducedLength(s, ps, k);
    ProducedGrows(s, ps, k + 1, |ps|);
    var before := Produced(s, ps, k);
    var gap := s[SrcAfter(ps, k)..ps[k].pos];
    var w := ps[k].newBits;
    var out := Spliced(s, ps);
    assert Produced(s, ps, k + 1) == before + gap + w;
    ThreeParts(out, before, gap, w);
  }

  /** A sequence that begins with `a + b + c` holds `b` and `c` right after `a`. */
  lemma ThreeParts<T>(out: seq<T>, a: seq<T>, b: seq<T>, c: seq<T>)
    requires |a + b + c| <= |out| && out[..|a + b + c|] == a + b + c
    ensures out[|a|..|a| + |b|] == b && out[|a| + |b|..|a| + |b| + |c|] == c
  {
    assert out[|a|..|a| + |b|] == (a + b + c)[|a|..|a| + |b|];
    assert out[|a| + |b|..|a| + |b| + |c|] == (a + b + c)[|a| + |b|..|a| + |b| + |c|];
  }

  /** After the last patch, the rest of `s` follows, shifted by the total delta. */
  lemma TailLands(s: seq<Bit>, ps: seq<Patch>)
    requires Chained(ps, |s|)
    ensures var at := SrcAfter(ps, |ps|) + Delta(ps);
      0 <= at <= |Spliced(s, ps)| && Spliced(s, ps)[at..] == s[SrcAfter(ps, |ps|)..]
  {
    ProducedLength(s, ps, |ps|);
    assert ps[..|ps|] == ps;
  }

  /** The bits before the first patch are copied where they were. */
  lemma SplicePrefix(s: seq<Bit>, ps: seq<Patch>)
    requires Chained(ps, |s|) && ps != []
    ensures 0 <= ps[0].pos <= |Spliced(s, ps)| && Spliced(s, ps)[..ps[0].pos] == s[..ps[0].pos]
  {
    PatchLands(s, ps, 0);
    assert ps[..0] == [];
  }

  // ---------------------------------------------------------------------------
  // The patches of a decoded table

  /** Where the quantities of a table end, entry by entry. */
  function Ends(s: seq<Bit>, es: seq<ResourceEntry>): (r: seq<int>)
    ensures |r| == |es|
  {
    seq(|es|, j requires 0 <= j < |es| => QuantityEnd(s, es[j]))
  }

  /** The quantities of `es`, ending at `ends`, lie in order inside a stream of
      `total` bits: each starts at a cursor before its end, its current
      encoding fits after its debug bit, and it ends before the next one starts. */
  ghost predicate Spaced(es: seq<ResourceEntry>, ends: seq<int>, total: int)
  {
    |ends| == |es| &&
    (forall j :: 0 <= j < |es| ==> 0 <= es[j].quantityBitPos < ends[j] <= total) &&
    (forall j :: 0 <= j < |es| && es[j].quantity != MinInt32 ==>
      es[j].quantityBitPos + 1 + |I32Bits(es[j].quantity)| <= ends[j]) &&
    (forall j :: 0 <= j < |es| - 1 ==> ends[j] < es[j + 1].quantityBitPos)
  }

  /** The encoding of a value takes `I32Width` bits. */
  lemma I32BitsWidth(v: int)
    requires IsInt32(v) && v != MinInt32
    ensures |I32Bits(v)| == I32Width(v)
  {
    if v != 0 {
      I32Layout(v);
    }
  }

  /** Where an entry's quantity lies: after its debug bit, its encoding fits
      before `QuantityEnd`, which is inside the stream. */
  lemma QuantityWindow(s: seq<Bit>, e: ResourceEntry)
    requires I32PackedAt(s, e.quantityBitPos, NoOid) == Some(Read(e.quantity as int, QuantityEnd(s, e)))
    ensures 0 <= e.quantityBitPos < QuantityEnd(s, e) <= |s|
    ensures e.quantity != MinInt32 ==> e.quantityBitPos + 1 + |I32Bits(e.quantity)| <= QuantityEnd(s, e)
  {
    I32PackedLayout(s, e.quantityBitPos);
    if e.quantity != MinInt32 {
      I32WidthWithin(s, e.quantityBitPos);
      I32BitsWidth(e.quantity);
    }
  }

  /** A decoded table is spaced. */
  lemma TableSpaced(s: seq<Bit>, p: int, n: nat)
    requires EntriesAt(s, p, n).Some?
    ensures var es := EntriesAt(s, p, n).value.value;
      Spaced(es, Ends(s, es), |s|)
  {
    var es := EntriesAt(s, p, n).value.value;
    TableLayout(s, p, n);
    forall j | 0 <= j < |es|
      ensures 0 <= es[j].quantityBitPos < QuantityEnd(s, es[j]) <= |s|
      ensures es[j].quantity != MinInt32 ==> es[j].quantityBitPos + 1 + |I32Bits(es[j].quantity)| <= QuantityEnd(s, es[j])
    {
      QuantityWindow(s, es[j]);
    }
  }

  /** The table `ReadResources` returns is spaced. */
  lemma ResourcesSpaced(s: seq<Bit>)
    requires ResourcesAt(s).Some? && ResourcesAt(s).value.Success?
    ensures var es := ResourcesAt(s).value.value;
      Spaced(es, Ends(s, es), |s|)
  {
    var count := CountAt(s).value;
    TableSpaced(s, count.next, count.value);
  }

  /** A plan's patches are those of the table `ReadResources` returns. */
  lemma PlanFromTable(s: seq<Bit>, mods: map<string, Int32>)
    requires PlanAt(s, mods).Some? && PlanAt(s, mods).value.Success?
    ensures ResourcesAt(s).Some? && ResourcesAt(s).value.Success?
    ensures PatchesFor(ResourcesAt(s).value.value, mods) == Success(PlanAt(s, mods).value.value.patches)
  {
  }

  /** Appending a patch that starts after the chain's end and fits keeps the
      chain. */
  lemma ChainAppend(ps: seq<Patch>, x: Patch, total: int)
    requires Chained(ps, total)
    requires SrcAfter(ps, |ps|) <= x.pos && x.pos + x.oldLen <= total
    ensures Chained(ps + [x], total) && SrcAfter(ps + [x], |ps| + 1) == x.pos + x.oldLen
  {
    var qs := ps + [x];
    if ps != [] {
      assert 0 <= SrcAfter(ps, |ps| - 1) <= ps[|ps| - 1].pos;
    }
    forall k | 0 <= k < |qs|
      ensures 0 <= SrcAfter(qs, k) <= qs[k].pos && qs[k].pos + qs[k].oldLen <= total
    {
      if k < |ps| {
        assert SrcAfter(qs, k) == SrcAfter(ps, k);
      }
    }
  }

  /** The patches built from the first `i` entries are chained, and the chain
      ends no later than the `i`-th quantity. */
  lemma {:induction false} PatchesChainedUpTo(es: seq<ResourceEntry>, ends: seq<int>, total: int, mods: map<string, Int32>, i: nat)
    requires 0 <= total && Spaced(es, ends, total) && i <= |es| && PatchesFor(es[..i], mods).Success?
    ensures var ps := PatchesFor(es[..i], mods).value;
      Chained(ps, total) && (i > 0 ==> SrcAfter(ps, |ps|) <= ends[i - 1])
  {
    if i == 0 {
      assert es[..i] == [];
    } else {
      var e := es[i - 1];
      assert es[..i][..i - 1] == es[..i - 1];
      assert es[..i][i - 1] == e;
      PatchesChainedUpTo(es, ends, total, mods, i - 1);
      var front := PatchesFor(es[..i - 1], mods).value;
      var ps := PatchesFor(es[..i], mods).value;
      if i > 1 {
        assert SrcAfter(front, |front|) < e.quantityBitPos;
      } else {
        assert es[..i - 1] == [];
      }
      if e.name in mods {
        assert e.quantity != MinInt32;
        var x := Patch(e.quantityBitPos + 1, |I32Bits(e.quantity)|, I32Bits(mods[e.name]));
        assert ps == front + [x];
        ChainAppend(front, x, total);
      } else {
        assert ps == front;
      }
    }
  }

  /** Every patch replaces at least one bit: an encoding is never empty. */
  lemma {:induction false} OldLenPositive(es: seq<ResourceEntry>, mods: map<string, Int32>)
    requires PatchesFor(es, mods).Success?
    ensures forall k :: 0 <= k < |PatchesFor(es, mods).value| ==> PatchesFor(es, mods).value[k].oldLen >= 1
  {
    if es != [] {
      OldLenPositive(es[..|es| - 1], mods);
    }
  }

  /** In a chain of patches that each replace at least one bit, every patch
      starts strictly after the one before. */
  lemma ChainedIncreasing(ps: seq<Patch>, total: int)
    requires Chained(ps, total)
    requires forall k :: 0 <= k < |ps| ==> ps[k].oldLen >= 1
    ensures forall k :: 0 < k < |ps| ==> ps[k - 1].pos < ps[k].pos
  {
    forall k | 0 < k < |ps|
      ensures ps[k - 1].pos < ps[k].pos
    {
      assert SrcAfter(ps, k) == ps[k - 1].pos + ps[k - 1].oldLen <= ps[k].pos;
    }
  }

  /** The patches of a plan lie in the stream, do not overlap, and their
      positions strictly increase, so sorting them by position, stably or
      not, leaves them as they are. */
  lemma PlanChained(s: seq<Bit>, mods: map<string, Int32>)
    requires PlanAt(s, mods).Some? && PlanAt(s, mods).value.Success?
    ensures Chained(PlanAt(s, mods).value.value.patches, |s|)
    ensures var ps := PlanAt(s, mods).value.value.patches;
      forall k :: 0 < k < |ps| ==> ps[k - 1].pos < ps[k].pos
  {
    PlanFromTable(s, mods);
    ResourcesSpaced(s);
    var es := ResourcesAt(s).value.value;
    assert es[..|es|] == es;
    PatchesChainedUpTo(es, Ends(s, es), |s|, mods, |es|);
    OldLenPositive(es, mods);
    ChainedIncreasing(PlanAt(s, mods).value.value.patches, |s|);
  }
}
