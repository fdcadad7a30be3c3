/** The save checksum: table-driven CRC-32 with the reflected polynomial
    0xEDB88320 (the IEEE 802.3 frame check sequence polynomial), the custom seed
    0x61635263 and no final inversion. */
module Crc {
  import opened BitWriter

  const CustomInit: bv32 := 0x6163_5263
  const Polynomial: bv32 := 0xEDB8_8320

  /** One reflected shift/xor round. */
  function Round(c: bv32): bv32
  {
    if c & 1 != 0 then (c >> 1) ^ Polynomial else c >> 1
  }

  /** `k` rounds applied to `c`. */
  function Rounds(c: bv32, k: nat): bv32
  {
    if k == 0 then c else Round(Rounds(c, k - 1))
  }

  /** Entry `i` of the table: eight rounds applied to `i`. */
  function Entry(i: bv32): bv32
  {
    Rounds(i, 8)
  }

  /** One byte folded into the accumulator: `(crc >> 8) ^ Table[(crc ^ b) & 0xFF]`. */
  function Step(c: bv32, b: byte): bv32
  {
    (c >> 8) ^ Entry((c ^ b as bv32) & 0xFF)
  }

  /** The bytes of `data` folded into `c`, front to back. */
  function Fold(c: bv32, data: seq<byte>): bv32
  {
    if data == [] then c else Step(Fold(c, data[..|data| - 1]), data[|data| - 1])
  }

  /** `Compute(data)`: the fold from the custom seed, returned as is. */
  function Checksum(data: seq<byte>): bv32
  {
    Fold(CustomInit, data)
  }

  /** The table is the 256 entries. */
  ghost predicate IsTable(table: seq<bv32>)
  {
    |table| == 256 && forall i :: 0 <= i < 256 ==> table[i] == Entry(i as bv32)
  }

  /** One byte folded through a 256-entry table `t`, as `Compute` does it. */
  function StepWith(t: seq<bv32>, c: bv32, b: byte): bv32
    requires |t| == 256
  {
    (c >> 8) ^ t[((c ^ b as bv32) & 0xFF) as int]
  }

  /** The bytes of `data` folded into `c` through the table `t`. */
  function FoldWith(t: seq<bv32>, c: bv32, data: seq<byte>): bv32
    requires |t| == 256
  {
    if data == [] then c else StepWith(t, FoldWith(t, c, data[..|data| - 1]), data[|data| - 1])
  }

  /** The static constructor: 256 entries of eight rounds each. */
  method BuildTable() returns (table: array<bv32>)
    ensures fresh(table) && IsTable(table[..])
  {
    table := new bv32[256];
    var i := 0;
    while i < 256
      invariant 0 <= i <= 256
      invariant forall k :: 0 <= k < i ==> table[k] == Entry(k as bv32)
    {
      var crc: bv32 := i as bv32;
      var j := 0;
      while j < 8
        invariant 0 <= j <= 8 && crc == Rounds(i as bv32, j)
      {
        crc := Round(crc);
        j := j + 1;
      }
      table[i] := crc;
      i := i + 1;
    }
  }

  /** `Compute`: folds every byte through the table; `data` is only read. */
  method Compute(table: array<bv32>, data: seq<byte>) returns (crc: bv32)
    requires table.Length == 256
    ensures crc == FoldWith(table[..], CustomInit, data)
  {
    crc := CustomInit;
    var i := 0;
    while i < |data|
      invariant 0 <= i <= |data| && crc == FoldWith(table[..], CustomInit, data[..i])
    {
      assert data[..i + 1][..i] == data[..i];
      crc := StepWith(table[..], crc, data[i]);
      i := i + 1;
    }
    assert data[..i] == data;
  }

  // ---------------------------------------------------------------------------
  // Lemmas

  /** Through the real table, one step is `Step`. */
  lemma StepByTable(t: seq<bv32>, c: bv32, b: byte)
    requires IsTable(t)
    ensures StepWith(t, c, b) == Step(c, b)
  {
    StepEntry(c, b);
    LowByte(c ^ b as bv32);
    Lookup(t, (c ^ b as bv32) & 0xFF);
  }

  /** The table at an 8-bit index holds that index's entry. */
  lemma Lookup(t: seq<bv32>, x: bv32)
    requires IsTable(t) && x < 256
    ensures 0 <= x as int < 256 && t[x as int] == Entry(x)
  {
    assert (x as int) as bv32 == x;
  }

  /** The low eight bits of a word are below 256. */
  lemma LowByte(v: bv32)
    ensures v & 0xFF < 256
  {
  }

  /** `Step` xors the shifted accumulator with the entry its low byte selects. */
  lemma StepEntry(c: bv32, b: byte)
    ensures Step(c, b) == (c >> 8) ^ Entry((c ^ b as bv32) & 0xFF)
  {
  }

  /** Folding through the real table is the checksum fold: `Compute` returns `Checksum`. */
  lemma {:induction false} TableFold(t: seq<bv32>, c: bv32, data: seq<byte>)
    requires IsTable(t)
    ensures FoldWith(t, c, data) == Fold(c, data)
  {
    if data != [] {
      TableFold(t, c, data[..|data| - 1]);
      StepByTable(t, FoldWith(t, c, data[..|data| - 1]), data[|data| - 1]);
    }
  }

  /** Folding one more byte is one more step: the checksum is a left fold. */
  lemma FoldAppend(c: bv32, data: seq<byte>, b: byte)
    ensures Fold(c, data + [b]) == Step(Fold(c, data), b)
  {
    assert (data + [b])[..|data|] == data;
  }

  /** Folding two runs one after the other is folding their concatenation. */
  lemma {:induction false} FoldConcat(c: bv32, a: seq<byte>, b: seq<byte>)
    ensures Fold(c, a + b) == Fold(Fold(c, a), b)
  {
    if b == [] {
      assert a + b == a;
    } else {
      var init := b[..|b| - 1];
      assert (a + b)[..|a + b| - 1] == a + init;
      FoldConcat(c, a, init);
    }
  }

  /** The empty input checksums to the seed: no final inversion. */
  lemma EmptyChecksum()
    ensures Checksum([]) == 0x6163_5263
  {
  }

  /** The first two table entries, as for the standard polynomial. */
  lemma KnownEntries()
    ensures Entry(0) == 0 && Entry(1) == 0x7707_3096
  {
  }

  /** The four table entries the bytes 0, 1, 2, 3 pick from the seed. */
  lemma FourEntries()
    ensures Entry(0x63) == 0xD4BB_30E2 && Entry(0xB1) == 0xBC66_831A
    ensures Entry(0x4B) == 0xE10E_9818 && Entry(0x42) == 0x98D2_20BC
  {
  }

  /** The four steps taken by the bytes 0, 1, 2, 3 from the seed. */
  lemma FourSteps()
    ensures Step(CustomInit, 0) == 0xD4DA_53B0 && Step(0xD4DA_53B0, 1) == 0xBCB2_5949
    ensures Step(0xBCB2_5949, 2) == 0xE1B2_2A41 && Step(0xE1B2_2A41, 3) == 0x9833_9296
  {
    FourEntries();
  }

  /** The checksum of a prefix and one more byte, for the worked example below. */
  lemma ChecksumStep(data: seq<byte>, b: byte, before: bv32, after: bv32)
    requires Checksum(data) == before && Step(before, b) == after
    ensures Checksum(data + [b]) == after
  {
    FoldAppend(CustomInit, data, b);
  }

  /** Four bytes move the checksum away from 0 and from the seed. */
  lemma FourBytes()
    ensures Checksum([0, 1, 2, 3]) == 0x9833_9296
    ensures Checksum([0, 1, 2, 3]) != 0 && Checksum([0, 1, 2, 3]) != CustomInit
  {
    FourSteps();
    ChecksumStep([], 0, CustomInit, 0xD4DA_53B0);
    assert [] + [0 as byte] == [0];
    ChecksumStep([0], 1, 0xD4DA_53B0, 0xBCB2_5949);
    assert [0 as byte] + [1] == [0, 1];
    ChecksumStep([0, 1], 2, 0xBCB2_5949, 0xE1B2_2A41);
    assert [0 as byte, 1] + [2] == [0, 1, 2];
    ChecksumStep([0, 1, 2], 3, 0xE1B2_2A41, 0x9833_9296);
    assert [0 as byte, 1, 2] + [3] == [0, 1, 2, 3];
  }
}
