/**
 The wire container of a section's 4096 block states: one value, a palette with
 packed indices, or packed states, changing form as values are written.
 */
module Palettes {
  import opened Bits
  import opened Wrappers
  import opened VarInts
  import opened DataArrays

  const MIN_INDIRECT_BITS := 4
  const MAX_INDIRECT_BITS := 8
  const MAX_PALETTE := 256
  const DIRECT_BITS := 15
  const DIRECT_RANGE := 0x8000
  const SECTION_SIZE := 4096

  type Cells = s: seq<Int32> | |s| == SECTION_SIZE witness seq(SECTION_SIZE, _ => 0)

  function Uniform(value: Int32): Cells {
    seq(SECTION_SIZE, _ => value)
  }

  function Update(cells: Cells, index: int, value: Int32): Cells {
    if 0 <= index < SECTION_SIZE then cells[index := value] else cells
  }

  /** What the direct form keeps of each state: its low fifteen bits. */
  function Truncated(cells: Cells): Cells {
    seq(SECTION_SIZE, i requires 0 <= i < SECTION_SIZE => cells[i] % DIRECT_RANGE)
  }

  /** One write on plain cells, as the container's resulting form stores it. */
  function Written(cells: Cells, index: int, value: Int32, direct: bool): Cells {
    if direct then Update(Truncated(cells), index, value % DIRECT_RANGE) else Update(cells, index, value)
  }

  predicate InWireRange(cells: Cells) {
    forall i | 0 <= i < SECTION_SIZE :: 0 <= cells[i] < DIRECT_RANGE
  }

  /** On fifteen-bit states every form stores exactly what was written. */
  lemma WrittenExactly(cells: Cells, index: int, value: Int32, direct: bool)
    requires InWireRange(cells) && 0 <= value < DIRECT_RANGE
    ensures Written(cells, index, value, direct) == Update(cells, index, value)
    ensures InWireRange(Written(cells, index, value, direct))
  {
    assert Truncated(cells) == cells;
  }

  /** What a container keeps of some states: the states, or their low fifteen bits once direct. */
  function Kept(cells: Cells, direct: bool): Cells {
    if direct then Truncated(cells) else cells
  }

  /** Writing over kept cells keeps the write: truncation commutes with plain writes. */
  lemma KeptWrite(cells: Cells, index: int, value: Int32, before: bool, after: bool)
    requires before ==> after
    ensures Written(Kept(cells, before), index, value, after) == Kept(Update(cells, index, value), after)
  {
    if after {
      forall k | 0 <= k < SECTION_SIZE
        ensures Written(Kept(cells, before), index, value, after)[k] == Truncated(Update(cells, index, value))[k]
      {
      }
    }
  }

  /** The states kept are the section's own if and only if a direct form has no state past fifteen bits. */
  lemma KeptExactly(cells: Cells, direct: bool)
    ensures Kept(cells, direct) == cells <==> (direct ==> InWireRange(cells))
  {
    if direct && !InWireRange(cells) {
      var k :| 0 <= k < SECTION_SIZE && !(0 <= cells[k] < DIRECT_RANGE);
      assert Truncated(cells)[k] != cells[k];
    }
    if direct && InWireRange(cells) {
      assert Truncated(cells) == cells;
    }
  }

  lemma KeepsFifteenBits(v: Int32)
    ensures Low(ToU64(v), DIRECT_BITS) == v % DIRECT_RANGE
  {
    hide Low, Pow2;
    LowIsMod(ToU64(v), 15);
    FifteenBits();
    LowOfSignExtension(v);
  }

  lemma FifteenBits()
    ensures Pow2(15) == 0x8000
  {
    Pow2Steps(0);
    Pow2Steps(1);
  }

  lemma LowOfSignExtension(v: Int32)
    ensures ToU64(v) % 0x8000 == v % 0x8000
  {
    if v < 0 {
      assert ToU64(v) == v + 0x8000 * 0x2_0000_0000_0000;
    }
  }

  // ----- the bytes of a palette

  function VarIntsBytes(vs: seq<Int32>): seq<Byte> {
    if vs == [] then [] else Encode(vs[0]) + VarIntsBytes(vs[1..])
  }

  lemma {:induction false} VarIntsBytesAppend(vs: seq<Int32>, v: Int32)
    ensures VarIntsBytes(vs + [v]) == VarIntsBytes(vs) + Encode(v)
  {
    if vs == [] {
      assert [] + [v] == [v];
      assert VarIntsBytes([v]) == Encode(v) + VarIntsBytes([]);
    } else {
      VarIntsBytesAppend(vs[1..], v);
      assert (vs + [v])[1..] == vs[1..] + [v];
    }
  }

  lemma EmptyPalette()
    ensures VarIntsBytes([]) == []
  {
  }

  // ----- the forms

  class SingleValueContainer {
    var Value: Int32

    constructor (value: Int32)
      ensures Value == value
    {
      Value := value;
    }

    /** A write of another value leaves for a two-entry palette. */
    method Set(index: int, value: Int32) returns (next: Option<IndirectContainer>)
      ensures next.None? <==> value == Value
      ensures next.Some? ==> next.value.Palette == [Value, value]
      ensures next.Some? ==> fresh(next.value) && fresh(next.value.Data) && fresh(next.value.Data.Data)
      ensures next.Some? ==> next.value.Valid()
      ensures next.Some? ==> next.value.Cells() == Update(Uniform(Value), index, value)
      ensures next.Some? ==> next.value.Narrow()
    {
      if Value == value {
        return None;
      }
      var indirect := new IndirectContainer(MIN_INDIRECT_BITS, Value);
      assert Pow2(8) == 256;
      var _ := indirect.Set(index, value);
      return Some(indirect);
    }
  }

  class DirectContainer {
    const Data: DataArray

    ghost predicate Valid()
      reads Data, Data.Data
    {
      Data.Valid() && Data.Size == SECTION_SIZE && Data.BitsPerEntry == DIRECT_BITS
      && forall i | 0 <= i < SECTION_SIZE :: Data.Entries()[i] < DIRECT_RANGE
    }

    ghost function Cells(): Cells
      reads Data, Data.Data
      requires Valid()
    {
      Data.Entries()
    }

    constructor ()
      ensures Valid() && fresh(Data) && fresh(Data.Data)
      ensures Cells() == Uniform(0)
    {
      Data := new DataArray(DIRECT_BITS, SECTION_SIZE);
    }

    method Set(index: int, value: Int32)
      requires Valid()
      modifies Data.Data
      ensures Valid()
      ensures Cells() == Update(old(Cells()), index, value % DIRECT_RANGE)
    {
      KeepsFifteenBits(value);
      Data.Set(index, value);
    }

    method Get(index: int) returns (v: Int32)
      requires Valid()
      ensures v == if 0 <= index < SECTION_SIZE then Cells()[index] else 0
    {
      v := Data.Get(index);
    }

    lemma AlreadyTruncated()
      requires Valid()
      ensures Truncated(Cells()) == Cells()
    {
    }

    method Size() returns (n: nat)
      ensures n == |WordsBytes(Data.Data[..])|
    {
      n := Data.Data.Length * 8;
    }
  }

  /** The eight-bit palette is the largest, and only it has 256 entries. */
  lemma FullPalette(bits: nat)
    requires bits <= MAX_INDIRECT_BITS
    ensures Pow2(bits) <= MAX_PALETTE && (Pow2(bits) == MAX_PALETTE <==> bits == MAX_INDIRECT_BITS)
  {
    assert Pow2(8) == 256;
    if bits < 8 { PowMonotone(bits, 7); }
  }

  /** The distinct states of some cells. */
  function StatesOf(states: seq<Int32>): set<Int32> {
    set x | x in states
  }

  /** States all different are as many as their set. */
  lemma {:induction false} DistinctStates(states: seq<Int32>)
    requires forall i, j | 0 <= i < j < |states| :: states[i] != states[j]
    ensures |StatesOf(states)| == |states|
  {
    if states == [] {
      assert StatesOf(states) == {};
    } else {
      var n := |states| - 1;
      DistinctStates(states[..n]);
      OneMoreState(states, n);
      assert states[..n + 1] == states;
      assert states[n] !in states[..n];
    }
  }

  lemma OneMoreState(states: seq<Int32>, n: nat)
    requires n < |states|
    ensures StatesOf(states[..n + 1]) == StatesOf(states[..n]) + {states[n]}
  {
    assert states[..n + 1] == states[..n] + [states[n]];
  }

  lemma MoreStates(a: set<Int32>, b: set<Int32>)
    requires a <= b
    ensures |a| <= |b|
  {
    assert b == a + (b - a);
  }

  /** The states that packed palette indices stand for. */
  ghost predicate Indices(entries: seq<nat>, palette: seq<Int32>) {
    |entries| == SECTION_SIZE && forall i | 0 <= i < SECTION_SIZE :: entries[i] < |palette|
  }

  ghost function Looked(entries: seq<nat>, palette: seq<Int32>): Cells
    requires Indices(entries, palette)
  {
    seq(SECTION_SIZE, i requires 0 <= i < SECTION_SIZE => palette[entries[i]])
  }

  lemma LookedAfterWrite(entries: seq<nat>, palette: seq<Int32>, index: int, p: nat)
    requires Indices(entries, palette) && p < |palette|
    ensures 0 <= index < SECTION_SIZE ==>
              && Indices(entries[index := p], palette)
              && Looked(entries[index := p], palette) == Update(Looked(entries, palette), index, palette[p])
  {
  }

  lemma LookedAfterGrowth(entries: seq<nat>, palette: seq<Int32>, value: Int32)
    requires Indices(entries, palette)
    ensures Indices(entries, palette + [value])
    ensures Looked(entries, palette + [value]) == Looked(entries, palette)
  {
  }

  class IndirectContainer {
    var Palette: seq<Int32>
    var Data: DataArray
    var MaxCapacity: nat

    ghost predicate Valid()
      reads this, Data, Data.Data
    {
      && Data.Valid() && Data.Size == SECTION_SIZE
      && MIN_INDIRECT_BITS <= Data.BitsPerEntry <= MAX_INDIRECT_BITS
      && MaxCapacity == Pow2(Data.BitsPerEntry)
      && 1 <= |Palette| <= MaxCapacity
      && (forall i, j | 0 <= i < j < |Palette| :: Palette[i] != Palette[j])
      && Indices(Data.Entries(), Palette)
    }

    ghost function Cells(): Cells
      reads this, Data, Data.Data
      requires Valid()
    {
      Looked(Data.Entries(), Palette)
    }

    /** The indices are no wider than the palette needs, from four bits on. */
    ghost predicate Narrow()
      reads this, Data
    {
      Data.BitsPerEntry > MIN_INDIRECT_BITS ==> |Palette| > Pow2(Data.BitsPerEntry - 1)
    }

    /** A fresh container whose every cell refers to the one palette entry. */
    constructor (bpe: nat, first: Int32)
      requires MIN_INDIRECT_BITS <= bpe <= MAX_INDIRECT_BITS
      ensures Valid() && fresh(Data) && fresh(Data.Data)
      ensures Palette == [first] && Data.BitsPerEntry == bpe
      ensures Cells() == Uniform(first)
    {
      ShlIsTimes(1, bpe);
      MaxCapacity := Shl(1, bpe);
      Palette := [first];
      Data := new DataArray(bpe, SECTION_SIZE);
      new;
      assert Pow2(bpe) >= 1;
    }

    /** An index past the palette reads as 0; in a valid container there is none. */
    method Get(index: int) returns (v: Int32)
      requires Data.Valid() && Data.Size == SECTION_SIZE
      ensures var p := if 0 <= index < SECTION_SIZE then Data.Entries()[index] else 0;
              v == if p < |Palette| then Palette[p] else 0
    {
      var paletteIndex := Data.Get(index);
      if paletteIndex >= |Palette| {
        return 0;
      }
      return Palette[paletteIndex];
    }

    /** Widening the indices moves every one of them to a wider array unchanged. */
    method Resize(newBPE: nat)
      requires Data.Valid() && Data.Size == SECTION_SIZE
      requires MIN_INDIRECT_BITS <= Data.BitsPerEntry < newBPE <= MAX_INDIRECT_BITS
      requires forall i | 0 <= i < SECTION_SIZE :: Data.Entries()[i] < Pow2(Data.BitsPerEntry)
      modifies this`Data
      ensures Data.Valid() && fresh(Data) && fresh(Data.Data)
      ensures Data.Size == SECTION_SIZE && Data.BitsPerEntry == newBPE
      ensures Data.Entries() == old(Data.Entries())
    {
      hide DataArray.Entries, DataArray.Valid, Pow2, Low, ToU64;
      var newStorage := new DataArray(newBPE, SECTION_SIZE);
      ghost var entries := Data.Entries();
      for x := 0 to SECTION_SIZE
        invariant Data == old(Data) && newStorage.Data != Data.Data
        invariant newStorage.Valid() && Data.Valid()
        invariant Data.Entries() == entries
        invariant newStorage.Entries()[..x] == entries[..x]
      {
        var val := Data.Get(x);
        SmallValueKept(val, Data.BitsPerEntry, newBPE);
        assert val == entries[x];
        newStorage.Set(x, val);
        ExtendPrefix(newStorage.Entries(), entries, x);
      }
      assert newStorage.Entries() == entries;
      Data := newStorage;
    }

    /** Every cell's state is stored directly, its low fifteen bits at least. */
    method UpgradeToDirect(index: int, value: Int32) returns (direct: DirectContainer)
      requires Valid()
      ensures direct.Valid() && fresh(direct) && fresh(direct.Data) && fresh(direct.Data.Data)
      ensures direct.Cells() == Written(Cells(), index, value, true)
    {
      hide DataArray.Entries, DataArray.Valid, DirectContainer.Valid, DirectContainer.Cells, Pow2;
      direct := new DirectContainer();
      ghost var cells := Cells();
      for x := 0 to SECTION_SIZE
        invariant direct.Valid() && Valid()
        invariant Cells() == cells
        invariant direct.Cells()[..x] == Truncated(cells)[..x]
      {
        var globalID := Get(x);
        direct.Set(x, globalID);
        ExtendPrefix(direct.Cells(), Truncated(cells), x);
      }
      assert direct.Cells() == Truncated(cells);
      direct.Set(index, value);
    }

    method Find(value: Int32) returns (pIndex: int)
      requires Valid()
      ensures pIndex == -1 ==> value !in Palette
      ensures pIndex != -1 ==> 0 <= pIndex < |Palette| && Palette[pIndex] == value
    {
      for idx := 0 to |Palette|
        invariant value !in Palette[..idx]
      {
        if Palette[idx] == value {
          return idx;
        }
      }
      return -1;
    }

    /**
     Writes one cell, growing the palette, widening the indices or leaving for the
     direct form as needed.
     */
    method Set(index: int, value: Int32) returns (next: Option<DirectContainer>)
      requires Valid()
      modifies this, Data.Data
      ensures next.None? ==> Valid() && (Data == old(Data) || (fresh(Data) && fresh(Data.Data)))
      ensures next.None? ==> Cells() == Update(old(Cells()), index, value)
      ensures next.Some? ==> fresh(next.value) && fresh(next.value.Data) && fresh(next.value.Data.Data)
      ensures next.Some? ==> next.value.Valid()
      ensures next.Some? ==> next.value.Cells() == Written(old(Cells()), index, value, true)
      ensures next.Some? <==> old(|Palette|) == MAX_PALETTE && value !in old(Palette)
      ensures next.None? ==> Palette == if value in old(Palette) then old(Palette) else old(Palette) + [value]
      ensures next.None? && old(Narrow()) ==> Narrow()
    {
      FullPalette(Data.BitsPerEntry);
      hide DataArray.Entries, DataArray.Valid, Looked, Low, ToU64, Truncated;
      var pIndex := Find(value);
      ghost var cells := Cells();
      if pIndex != -1 {
        PlaceIndex(index, pIndex);
        return None;
      }
      if |Palette| >= MaxCapacity {
        var newBPE := Data.BitsPerEntry + 1;
        if newBPE > MAX_INDIRECT_BITS {
          var direct := UpgradeToDirect(index, value);
          return Some(direct);
        }
        ShlIsTimes(1, newBPE);
        MaxCapacity := Shl(1, newBPE);
        Resize(newBPE);
      }
      LookedAfterGrowth(Data.Entries(), Palette, value);
      Palette := Palette + [value];
      PlaceIndex(index, |Palette| - 1);
      return None;
    }

    method Size() returns (n: nat)
      ensures n == |Encode(WrapI32(|Palette|)) + VarIntsBytes(Palette) + WordsBytes(Data.Data[..])|
    {
      hide Encode, VarIntsBytes;
      var pSize := Len(WrapI32(|Palette|));
      EmptyPalette();
      ghost var prefix := pSize;
      for k := 0 to |Palette|
        invariant pSize == prefix + |VarIntsBytes(Palette[..k])|
      {
        var l := Len(Palette[k]);
        assert Palette[..k + 1] == Palette[..k] + [Palette[k]];
        VarIntsBytesAppend(Palette[..k], Palette[k]);
        pSize := pSize + l;
      }
      assert Palette[..|Palette|] == Palette;
      n := pSize + Data.Data.Length * 8;
    }

    method WriteTo(w: ByteSink)
      modifies w
      ensures w.written
              == old(w.written) + Encode(WrapI32(|Palette|)) + VarIntsBytes(Palette) + WordsBytes(Data.Data[..])
    {
      hide Encode, VarIntsBytes, WordsBytes;
      VarInts.WriteTo(WrapI32(|Palette|), w);
      EmptyPalette();
      ghost var start := w.written;
      for k := 0 to |Palette|
        invariant Palette == old(Palette) && Data.Data[..] == old(Data.Data[..])
        invariant w.written == start + VarIntsBytes(Palette[..k])
      {
        assert Palette[..k + 1] == Palette[..k] + [Palette[k]];
        VarIntsBytesAppend(Palette[..k], Palette[k]);
        VarInts.WriteTo(Palette[k], w);
      }
      assert Palette[..|Palette|] == Palette;
      Data.WriteTo(w);
    }

    method PlaceIndex(index: int, p: nat)
      requires Valid() && p < |Palette|
      modifies Data.Data
      ensures Valid()
      ensures Cells() == Update(old(Cells()), index, Palette[p])
    {
      SmallValueKept(p, Data.BitsPerEntry, Data.BitsPerEntry);
      LookedAfterWrite(Data.Entries(), Palette, index, p);
      Data.Set(index, p);
    }
  }

  lemma ExtendPrefix<T>(a: seq<T>, b: seq<T>, x: nat)
    requires x < |a| && x < |b| && a[..x] == b[..x] && a[x] == b[x]
    ensures a[..x + 1] == b[..x + 1]
  {
    assert a[..x + 1] == a[..x] + [a[x]];
    assert b[..x + 1] == b[..x] + [b[x]];
  }

  lemma SmallValueKept(val: nat, oldBits: nat, newBits: nat)
    requires val < Pow2(oldBits) && oldBits <= newBits <= 8
    ensures Low(ToU64(val), newBits) == val
  {
    hide Low;
    PowMonotone(oldBits, newBits);
    PowMonotone(newBits, 8);
    assert Pow2(8) == 256;
    LowOfSmall(val, newBits);
  }

  lemma {:induction false} PowMonotone(a: nat, b: nat)
    requires a <= b
    ensures Pow2(a) <= Pow2(b)
  {
    if a == b {
    } else {
      PowMonotone(a, b - 1);
    }
  }
}
