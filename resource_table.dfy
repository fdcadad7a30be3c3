/** The resource table inside `cser`: a `rict`-tagged signed count, then one
    entry per resource, each an unsigned index, a `rinm`-tagged name, the signed
    quantity and a wrapped flag. */
module ResourceTable {
  import opened Wrappers
  import opened BitMath
  import opened BitWriter
  import opened StreamFormat
  import opened Reader
  import opened Navigator

  /** One resource. `quantityBitPos` is the cursor just before the quantity's
      debug bit, so the quantity's own bits start one bit later. */
  datatype ResourceEntry = ResourceEntry(
    index: int,
    name: string,
    quantity: Int32,
    quantityBitPos: int,
    isItem: bool)

  /** One entry at `p`. The index is the unsigned value cast to `int` (unchecked). */
  function EntryAt(s: seq<Bit>, p: int): Option<Read<ResourceEntry>>
  {
    var idx :- U32PackedAt(s, p, NoOid);
    var name :- StringAt(s, idx.next, TagRinm);
    var qty :- I32PackedAt(s, name.next, NoOid);
    var flag :- BoolWrappedAt(s, qty.next, NoOid);
    Some(Read(ResourceEntry(ToInt32(idx.value), name.value, qty.value, name.next, flag.value != 0), flag.next))
  }

  /** `EntryAt` on `s`, as a decoder `Repeat` can apply. */
  function EntryDecoder(s: seq<Bit>): int -> Option<Read<ResourceEntry>>
  {
    (q: int) => EntryAt(s, q)
  }

  /** `n` entries read one after the other from `p`. */
  function EntriesAt(s: seq<Bit>, p: int, n: nat): Option<Read<seq<ResourceEntry>>>
  {
    Repeat(EntryDecoder(s), p, n)
  }

  /** The `rict`-tagged count, read where the walk to `cser` stops. */
  function CountAt(s: seq<Bit>): Option<Read<int>>
  {
    var t :- CserWalk(s);
    I32PackedAt(s, t.pos, TagRict)
  }

  /** `ReadResources`: `None` where the source faults reading past the buffer;
      a negative count fails at the list's capacity. */
  function ResourcesAt(s: seq<Bit>): Option<Result<seq<ResourceEntry>, Error>>
  {
    var count :- CountAt(s);
    if count.value < 0 then Some(Failure(NegativeCapacity))
    else
      var entries :- EntriesAt(s, count.next, count.value);
      Some(Success(entries.value))
  }

  /** `ReadResources`: navigate to `cser`, read the count, then the entries. */
  method ReadResources(data: array<byte>) returns (res: Result<seq<ResourceEntry>, Error>)
    requires ResourcesAt(Bits(data[..])).Some?
    ensures Some(res) == ResourcesAt(Bits(data[..]))
  {
    var r, cser := NavigateToCser(data);
    var count := r.ReadI32Packed(TagRict);
    if count < 0 {
      return Failure(NegativeCapacity);
    }
    ghost var start := r.Pos;
    var resources: seq<ResourceEntry> := [];
    var i := 0;
    while i < count
      invariant 0 <= i <= count && r.Valid()
      invariant EntriesAt(r.stream, start, i) == Some(Read(resources, r.Pos))
    {
      RepeatNext(EntryDecoder(r.stream), start, count, i);
      var e := ReadEntry(r);
      resources := resources + [e];
      i := i + 1;
    }
    return Success(resources);
  }

  /** The body of the loop in `ReadResources`: one entry, with the cursor before
      the quantity recorded as its position. */
  method ReadEntry(r: BitReader) returns (e: ResourceEntry)
    requires r.Valid() && EntryAt(r.stream, r.Pos).Some?
    modifies r
    ensures EntryAt(r.stream, old(r.Pos)) == Some(Read(e, r.Pos))
  {
    var idx := r.ReadU32Packed(NoOid);
    var name := r.ReadString(TagRinm);
    var qtyPos := r.Pos;
    var qty := r.ReadI32Packed(NoOid);
    var flag := r.ReadBoolWrapped(NoOid);
    e := ResourceEntry(ToInt32(idx), name, qty, qtyPos, flag != 0);
  }

  // ---------------------------------------------------------------------------
  // Lemmas

  /** A successful read holds exactly as many entries as the count says, and
      the count is not negative. */
  lemma ResourceCount(s: seq<Bit>)
    requires ResourcesAt(s).Some? && ResourcesAt(s).value.Success?
    ensures CountAt(s).Some? && CountAt(s).value.value >= 0
    ensures |ResourcesAt(s).value.value| == CountAt(s).value.value
  {
  }

  /** A negative count is the only failure: the list cannot be made. */
  lemma NegativeCount(s: seq<Bit>)
    requires CountAt(s).Some?
    ensures CountAt(s).value.value < 0 <==> ResourcesAt(s) == Some(Failure(NegativeCapacity))
  {
  }

  /** Where the quantity of `e` ends: just after its packed value. */
  function QuantityEnd(s: seq<Bit>, e: ResourceEntry): int
  {
    match I32PackedAt(s, e.quantityBitPos, NoOid)
    case Some(q) => q.next
    case None => e.quantityBitPos
  }

  /** The layout of a decoded table between `p` and `q`: every quantity decodes
      at its recorded position, lies strictly inside the table, and ends before
      the next entry's quantity starts. */
  ghost predicate Placed(s: seq<Bit>, es: seq<ResourceEntry>, p: int, q: int)
  {
    (forall i :: 0 <= i < |es| ==>
      I32PackedAt(s, es[i].quantityBitPos, NoOid) == Some(Read(es[i].quantity as int, QuantityEnd(s, es[i])))) &&
    (forall i :: 0 <= i < |es| ==> p < es[i].quantityBitPos && QuantityEnd(s, es[i]) < q) &&
    (forall i, j :: 0 <= i < j < |es| ==> QuantityEnd(s, es[i]) < es[j].quantityBitPos)
  }

  /** One entry: its quantity decodes at `quantityBitPos`, after the entry's
      start, and ends before the entry's end (the flag follows it). */
  lemma EntryQuantity(s: seq<Bit>, p: int)
    requires EntryAt(s, p).Some?
    ensures var r := EntryAt(s, p).value;
      I32PackedAt(s, r.value.quantityBitPos, NoOid) == Some(Read(r.value.quantity as int, QuantityEnd(s, r.value))) &&
      p < r.value.quantityBitPos < QuantityEnd(s, r.value) < r.next
  {
    var idx := U32PackedAt(s, p, NoOid).value;
    U32PackedLayout(s, p);
    StringAdvances(s, idx.next, TagRinm);
    var name := StringAt(s, idx.next, TagRinm).value;
    I32PackedLayout(s, name.next);
    var qty := I32PackedAt(s, name.next, NoOid).value;
    DebugSkipLayout(s, qty.next, NoOid);
  }

  /** Where the quantity of an entry starts, as a function value. */
  function QuantityStart(e: ResourceEntry): int
  {
    e.quantityBitPos
  }

  /** `QuantityEnd` on `s`, as a function value. */
  function QuantityEndIn(s: seq<Bit>): ResourceEntry -> int
  {
    (e: ResourceEntry) => QuantityEnd(s, e)
  }

  /** Whether the quantity of an entry decodes at its recorded position. */
  function QuantityDecodes(s: seq<Bit>): ResourceEntry -> bool
  {
    (e: ResourceEntry) => I32PackedAt(s, e.quantityBitPos, NoOid) == Some(Read(e.quantity as int, QuantityEnd(s, e)))
  }

  /** Every entry of a decoded table has its quantity where it says, inside the
      table, in order and without overlap. */
  lemma TableLayout(s: seq<Bit>, p: int, n: nat)
    requires EntriesAt(s, p, n).Some?
    ensures var r := EntriesAt(s, p, n).value;
      p <= r.next && Placed(s, r.value, p - 1, r.next + 1)
  {
    EntriesSpan(s);
    RepeatSpans(EntryDecoder(s), QuantityStart, QuantityEndIn(s), p, n);
    RepeatAll(EntryDecoder(s), QuantityDecodes(s), p, n);
  }

  /** Each entry holds its quantity strictly inside it, and the quantity decodes. */
  lemma EntriesSpan(s: seq<Bit>)
    ensures var f := EntryDecoder(s);
      forall q :: f(q).Some? ==>
        q < QuantityStart(f(q).value.value) <= QuantityEndIn(s)(f(q).value.value) < f(q).value.next
    ensures var f := EntryDecoder(s);
      forall q :: f(q).Some? ==> QuantityDecodes(s)(f(q).value.value)
  {
    forall q | EntryDecoder(s)(q).Some?
      ensures var e := EntryDecoder(s)(q).value;
        q < QuantityStart(e.value) <= QuantityEndIn(s)(e.value) < e.next && QuantityDecodes(s)(e.value)
    {
      EntryQuantity(s, q);
    }
  }
}
