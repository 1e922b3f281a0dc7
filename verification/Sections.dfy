/**
 A 16x16x16 block section in memory: one value, a palette with byte indices, or
 16-bit states, with a running count of the cells that are not air.
 */
module Sections {
  import opened Wrappers
  import VarInts

  const SECTION_SIZE := 4096
  const SLAB := 256
  const MAX_PALETTE := 256

  type State = VarInts.Int32
  type U16 = x: int | 0 <= x < 0x1_0000
  type Cells = s: seq<State> | |s| == SECTION_SIZE witness seq(SECTION_SIZE, _ => 0)

  // ----- the plain array a section stands for

  function Uniform(state: State): Cells {
    seq(SECTION_SIZE, _ => state)
  }

  /** The cells with those from `lo` up to `hi` replaced by `state`. */
  function Slab(cells: Cells, lo: nat, hi: nat, state: State): Cells {
    seq(SECTION_SIZE, k requires 0 <= k < SECTION_SIZE => if lo <= k < hi then state else cells[k])
  }

  /** What the 16-bit form keeps of each state. */
  function Truncated(cells: Cells): Cells {
    seq(SECTION_SIZE, k requires 0 <= k < SECTION_SIZE => cells[k] % 0x1_0000)
  }

  predicate InU16(cells: Cells) {
    forall k | 0 <= k < SECTION_SIZE :: 0 <= cells[k] < 0x1_0000
  }

  /** How a form stores `cells`. */
  function Stored(cells: Cells, direct: bool): Cells {
    if direct then Truncated(cells) else cells
  }

  lemma StoredExactly(cells: Cells, direct: bool)
    ensures Stored(cells, direct) == cells <==> (direct ==> InU16(cells))
  {
    if direct && !InU16(cells) {
      var k :| 0 <= k < SECTION_SIZE && !(0 <= cells[k] < 0x1_0000);
      assert Truncated(cells)[k] != cells[k];
    }
    if direct && InU16(cells) {
      assert Truncated(cells) == cells;
    }
  }

  /** State 65536 written to the 16-bit form is read back as air. */
  lemma WideStateBecomesAir(cells: Cells, idx: nat)
    requires idx < SECTION_SIZE
    ensures var plain := cells[idx := 0x1_0000];
            Stored(plain, true) != plain && Stored(plain, true)[idx] == 0
  {
    var plain := cells[idx := 0x1_0000];
    StoredExactly(plain, true);
    assert plain[idx] == 0x1_0000;
  }

  lemma WriteInU16(cells: Cells, idx: nat, state: State)
    requires idx < SECTION_SIZE
    ensures InU16(cells) && 0 <= state < 0x1_0000 ==> InU16(cells[idx := state])
  {
  }

  lemma TruncatedAfterWrite(cells: Cells, idx: nat, state: State)
    requires idx < SECTION_SIZE
    ensures Truncated(Truncated(cells)[idx := state]) == Truncated(cells[idx := state])
  {
  }

  lemma TruncatedAfterFill(cells: Cells, lo: nat, hi: nat, state: State)
    ensures Truncated(Slab(Truncated(cells), lo, hi, state)) == Truncated(Slab(cells, lo, hi, state))
  {
  }

  /** The number of cells that are not air. */
  function NonAir(s: seq<State>): (n: nat)
    ensures n <= |s|
  {
    if s == [] then 0 else NonAir(s[..|s| - 1]) + (if s[|s| - 1] != 0 then 1 else 0)
  }

  predicate HasBlock(s: seq<State>, k: int) {
    0 <= k < |s| && s[k] != 0
  }

  /** That is how many positions hold a state other than 0. */
  lemma {:induction false} NonAirCounts(s: seq<State>)
    ensures NonAir(s) == |set k | 0 <= k < |s| && HasBlock(s, k)|
  {
    if s == [] {
      assert (set k | 0 <= k < |s| && HasBlock(s, k)) == {};
    } else {
      var n, front := |s| - 1, s[..|s| - 1];
      NonAirCounts(front);
      var before := set k | 0 <= k < |front| && HasBlock(front, k);
      assert (set k | 0 <= k < |s| && HasBlock(s, k)) == if s[n] != 0 then before + {n} else before;
    }
  }

  lemma {:induction false} NonAirConcat(a: seq<State>, b: seq<State>)
    ensures NonAir(a + b) == NonAir(a) + NonAir(b)
  {
    if b == [] {
      assert a + b == a;
    } else {
      assert (a + b)[..|a + b| - 1] == a + b[..|b| - 1];
      NonAirConcat(a, b[..|b| - 1]);
    }
  }

  lemma NonAirNext(cells: Cells, lo: nat, k: nat)
    requires lo <= k < SECTION_SIZE
    ensures NonAir(cells[lo..k + 1]) == NonAir(cells[lo..k]) + (if cells[k] != 0 then 1 else 0)
  {
    assert cells[lo..k + 1][..k - lo] == cells[lo..k];
  }

  lemma NonAirNone()
    ensures NonAir([]) == 0
  {
  }

  lemma {:induction false} NonAirUniform(s: seq<State>, state: State)
    requires forall k | 0 <= k < |s| :: s[k] == state
    ensures NonAir(s) == if state != 0 then |s| else 0
  {
    if s == [] {
    } else {
      NonAirUniform(s[..|s| - 1], state);
    }
  }

  lemma {:induction false} NonAirZero(s: seq<State>)
    requires NonAir(s) == 0
    ensures forall k | 0 <= k < |s| :: s[k] == 0
  {
    if s == [] {
    } else {
      NonAirZero(s[..|s| - 1]);
    }
  }

  /** Refilling a stretch trades its own non-air cells for the new ones. */
  lemma NonAirSlab(cells: Cells, lo: nat, hi: nat, state: State)
    requires lo <= hi <= SECTION_SIZE
    ensures NonAir(Slab(cells, lo, hi, state))
            == NonAir(cells) - NonAir(cells[lo..hi]) + (if state != 0 then hi - lo else 0)
    ensures NonAir(cells[lo..hi]) <= NonAir(cells)
  {
    var after := Slab(cells, lo, hi, state);
    assert cells == cells[..lo] + cells[lo..hi] + cells[hi..];
    assert after == cells[..lo] + after[lo..hi] + cells[hi..];
    NonAirConcat(cells[..lo] + cells[lo..hi], cells[hi..]);
    NonAirConcat(cells[..lo], cells[lo..hi]);
    NonAirConcat(cells[..lo] + after[lo..hi], cells[hi..]);
    NonAirConcat(cells[..lo], after[lo..hi]);
    NonAirUniform(after[lo..hi], state);
  }

  lemma SingleCellSlab(cells: Cells, idx: nat, state: State)
    requires idx < SECTION_SIZE
    ensures Slab(cells, idx, idx + 1, state) == cells[idx := state]
    ensures NonAir(cells[idx..idx + 1]) == if cells[idx] != 0 then 1 else 0
  {
    assert cells[idx..idx + 1] == [cells[idx]];
    assert NonAir([cells[idx]]) == NonAir([]) + (if cells[idx] != 0 then 1 else 0);
  }

  // ----- the three forms

  /** Sets a whole layer range of an array of cells, 256 cells a layer. */
  method WriteLayers<T>(a: array<T>, yStart: nat, yEnd: nat, value: T)
    requires a.Length == SECTION_SIZE && yStart <= yEnd <= 16
    modifies a
    ensures forall k | 0 <= k < SECTION_SIZE ::
              a[k] == if SLAB * yStart <= k < SLAB * yEnd then value else old(a[k])
  {
    for y := yStart to yEnd
      invariant forall k | 0 <= k < SECTION_SIZE ::
                  a[k] == if SLAB * yStart <= k < SLAB * y then value else old(a[k])
    {
      var base := y * SLAB;
      for i := 0 to SLAB
        invariant forall k | 0 <= k < SECTION_SIZE ::
                    a[k] == if SLAB * yStart <= k < base + i then value else old(a[k])
      {
        a[base + i] := value;
      }
    }
  }

  class IndirectImpl {
    var palette: seq<State>
    const indices: array<nat>

    ghost predicate Valid()
      reads this, indices
    {
      && indices.Length == SECTION_SIZE
      && 1 <= |palette| <= MAX_PALETTE
      && forall k | 0 <= k < SECTION_SIZE :: indices[k] < |palette|
    }

    ghost function Cells(): Cells
      reads this, indices
      requires Valid()
    {
      seq(SECTION_SIZE, k requires 0 <= k < SECTION_SIZE reads this, indices requires Valid() => palette[indices[k]])
    }

    /** A new state that the palette cannot take. */
    predicate Overflows(state: State)
      reads this
    {
      |palette| >= MAX_PALETTE && state !in palette
    }

    constructor (a: State, b: State)
      ensures Valid() && fresh(indices)
      ensures palette == [a, b] && Cells() == Uniform(a)
    {
      palette := [a, b];
      indices := new nat[SECTION_SIZE](_ => 0);
    }

    method Find(state: State) returns (pi: int)
      ensures pi == -1 <==> state !in palette
      ensures pi != -1 ==> 0 <= pi < |palette| && palette[pi] == state
    {
      for k := 0 to |palette|
        invariant state !in palette[..k]
      {
        if palette[k] == state {
          return k;
        }
      }
      return -1;
    }

    /** The same cells in the 16-bit form. */
    method ToDirect() returns (direct: DirectImpl)
      requires Valid()
      ensures direct.Valid() && fresh(direct) && fresh(direct.states)
      ensures direct.Cells() == Truncated(Cells())
    {
      direct := new DirectImpl();
      for k := 0 to SECTION_SIZE
        invariant Valid() && direct.Valid()
        invariant forall j | 0 <= j < k :: direct.states[j] == Cells()[j] % 0x1_0000
      {
        direct.states[k] := palette[indices[k]] % 0x1_0000;
      }
    }

    method Set(idx: nat, state: State) returns (next: Option<DirectImpl>, before: State)
      requires Valid() && idx < SECTION_SIZE
      modifies this, indices
      ensures before == old(Cells())[idx]
      ensures next.Some? == old(Overflows(state))
      ensures next.None? ==> Valid() && Cells() == old(Cells())[idx := state]
      ensures next.Some? ==> next.value.Valid() && fresh(next.value) && fresh(next.value.states)
      ensures next.Some? ==> next.value.Cells() == Truncated(old(Cells())[idx := state])
    {
      before := palette[indices[idx]];
      var pi := Find(state);
      if pi != -1 {
        indices[idx] := pi;
        return None, before;
      }
      if |palette| >= MAX_PALETTE {
        var direct := ToDirect();
        ghost var cells := Cells();
        var _ := direct.Set(idx, state);
        TruncatedAfterWrite(cells, idx, state);
        return Some(direct), before;
      }
      palette := palette + [state];
      indices[idx] := |palette| - 1;
      return None, before;
    }

    method FillRange(yStart: nat, yEnd: nat, state: State) returns (next: Option<DirectImpl>)
      requires Valid() && yStart <= yEnd <= 16
      modifies this, indices
      ensures next.Some? == old(Overflows(state))
      ensures next.None? ==> Valid() && Cells() == Slab(old(Cells()), SLAB * yStart, SLAB * yEnd, state)
      ensures next.Some? ==> next.value.Valid() && fresh(next.value) && fresh(next.value.states)
      ensures next.Some? ==>
                next.value.Cells() == Truncated(Slab(old(Cells()), SLAB * yStart, SLAB * yEnd, state))
    {
      var pi := Find(state);
      if pi < 0 {
        if |palette| >= MAX_PALETTE {
          var direct := ToDirect();
          ghost var cells := Cells();
          direct.FillRange(yStart, yEnd, state);
          TruncatedAfterFill(cells, SLAB * yStart, SLAB * yEnd, state);
          return Some(direct);
        }
        palette := palette + [state];
        pi := |palette| - 1;
      }
      WriteLayers(indices, yStart, yEnd, pi);
      return None;
    }
  }

  class DirectImpl {
    const states: array<U16>

    ghost predicate Valid() {
      states.Length == SECTION_SIZE
    }

    ghost function Cells(): Cells
      reads states
      requires Valid()
    {
      seq(SECTION_SIZE, k requires 0 <= k < SECTION_SIZE reads states requires Valid() => states[k])
    }

    constructor ()
      ensures Valid() && fresh(states)
    {
      states := new U16[SECTION_SIZE](_ => 0);
    }

    method Set(idx: nat, state: State) returns (before: State)
      requires Valid() && idx < SECTION_SIZE
      modifies states
      ensures before == old(Cells())[idx]
      ensures Cells() == Truncated(old(Cells())[idx := state])
    {
      before := states[idx];
      states[idx] := state % 0x1_0000;
    }

    method FillRange(yStart: nat, yEnd: nat, state: State)
      requires Valid() && yStart <= yEnd <= 16
      modifies states
      ensures Cells() == Truncated(Slab(old(Cells()), SLAB * yStart, SLAB * yEnd, state))
    {
      WriteLayers(states, yStart, yEnd, state % 0x1_0000);
    }
  }

  datatype Impl = Single(value: State) | Indirect(indirect: IndirectImpl) | Direct(direct: DirectImpl)

  datatype SectionError = IndexOutOfRange(idx: int)

  class Section {
    var blockCount: U16
    var impl: Impl

    ghost function Objects(): set<object>
      reads this`impl
    {
      match impl
      case Single(_) => {}
      case Indirect(i) => {i, i.indices}
      case Direct(d) => {d, d.states}
    }

    ghost predicate Valid()
      reads this`impl, Objects()
    {
      match impl
      case Single(_) => true
      case Indirect(i) => i.Valid()
      case Direct(d) => d.Valid()
    }

    ghost function Cells(): Cells
      reads this`impl, Objects()
      requires Valid()
    {
      match impl
      case Single(v) => Uniform(v)
      case Indirect(i) => i.Cells()
      case Direct(d) => d.Cells()
    }

    /** The running count is the number of non-air cells. */
    ghost predicate Counted()
      reads this, Objects()
      requires Valid()
    {
      blockCount == NonAir(Cells())
    }

    /** The cells are `plain`, exactly counted, if and only if the form reached can hold them. */
    ghost predicate ExactIffHeld(plain: Cells, direct: bool)
      reads this, Objects()
      requires Valid()
    {
      (Cells() == plain && Counted()) <==> (direct ==> InU16(plain))
    }

    /** Writing `state` leaves the section in the 16-bit form. */
    predicate GoesDirect(state: State)
      reads this`impl, if impl.Indirect? then {impl.indirect} else {}
    {
      impl.Direct? || (impl.Indirect? && impl.indirect.Overflows(state))
    }

    constructor (state: State)
      ensures Valid() && Counted() && Cells() == Uniform(state) && Objects() == {}
    {
      impl := Single(state);
      blockCount := if state != 0 then SECTION_SIZE else 0;
      NonAirUniform(Uniform(state), state);
    }

    function Get(idx: int): (state: State)
      reads this`impl, Objects()
      requires Valid()
      ensures state == if 0 <= idx < SECTION_SIZE then Cells()[idx] else 0
    {
      if idx < 0 || idx >= SECTION_SIZE then 0
      else match impl
        case Single(v) => v
        case Indirect(i) => i.palette[i.indices[idx]]
        case Direct(d) => d.states[idx]
    }

    /** The form's own write: the cells change as that form stores them. */
    method ImplSet(idx: nat, state: State) returns (before: State)
      requires Valid() && idx < SECTION_SIZE
      modifies this`impl, Objects()
      ensures Valid() && fresh(Objects() - old(Objects()))
      ensures before == old(Cells())[idx]
      ensures Cells() == Stored(old(Cells())[idx := state], old(GoesDirect(state)))
      ensures impl.Direct? == old(GoesDirect(state))
    {
      match impl {
        case Single(v) =>
          if state != v {
            var indirect := new IndirectImpl(v, state);
            indirect.indices[idx] := 1;
            impl := Indirect(indirect);
          }
          before := v;
        case Indirect(i) =>
          var next, o := i.Set(idx, state);
          if next.Some? {
            impl := Direct(next.value);
          }
          before := o;
        case Direct(d) =>
          before := d.Set(idx, state);
      }
    }

    /** The form's own layer fill. */
    method ImplFillRange(yStart: nat, yEnd: nat, state: State)
      requires Valid() && yStart <= yEnd <= 16
      modifies this`impl, Objects()
      ensures Valid() && fresh(Objects() - old(Objects()))
      ensures Cells() == Stored(Slab(old(Cells()), SLAB * yStart, SLAB * yEnd, state), old(GoesDirect(state)))
      ensures impl.Direct? == old(GoesDirect(state))
    {
      match impl {
        case Single(v) =>
          if state != v {
            var indirect := new IndirectImpl(v, state);
            WriteLayers(indirect.indices, yStart, yEnd, 1);
            impl := Indirect(indirect);
          }
        case Indirect(i) =>
          var next := i.FillRange(yStart, yEnd, state);
          if next.Some? {
            impl := Direct(next.value);
          }
        case Direct(d) =>
          d.FillRange(yStart, yEnd, state);
      }
    }

    method DemoteToAir()
      modifies this`impl
      ensures impl == Single(0) && Objects() == {} && Valid() && Cells() == Uniform(0)
    {
      impl := Single(0);
    }

    /**
     One cell is written. From an exact count the result is the plain array's, still
     exactly counted, if and only if the form reached can hold every state of it.
     */
    method Set(idx: int, state: State) returns (err: Option<SectionError>)
      requires Valid()
      modifies this, Objects()
      ensures Valid() && fresh(Objects() - old(Objects()))
      ensures err.Some? <==> !(0 <= idx < SECTION_SIZE)
      ensures err.Some? ==> Cells() == old(Cells()) && blockCount == old(blockCount)
      ensures err.None? && old(Counted()) ==>
                ExactIffHeld(old(Cells())[idx := state], old(GoesDirect(state)))
      ensures err.None? && old(Counted()) && InU16(old(Cells())) && 0 <= state < 0x1_0000 ==>
                Cells() == old(Cells())[idx := state] && InU16(Cells()) && Counted()
    {
      hide NonAir, Stored, Slab, InU16, Truncated, Section.Valid, Section.Cells, Section.GoesDirect, Uniform;
      if idx < 0 || idx >= SECTION_SIZE {
        return Some(IndexOutOfRange(idx));
      }
      ghost var cells, direct := Cells(), GoesDirect(state);
      SingleCellSlab(cells, idx, state);
      WriteInU16(cells, idx, state);
      var before := ImplSet(idx, state);
      if before == 0 && state != 0 {
        blockCount := (blockCount + 1) % 0x1_0000;
      } else if before != 0 && state == 0 {
        blockCount := (blockCount - 1) % 0x1_0000;
      }
      if old(Counted()) {
        EditIsExact(cells, idx, idx + 1, state, direct);
      }
      if blockCount == 0 {
        DemoteToAir();
      }
      return None;
    }

    method Fill(state: State)
      modifies this
      ensures Valid() && Objects() == {} && Cells() == Uniform(state) && Counted()
    {
      impl := Single(state);
      NonAirUniform(Uniform(state), state);
      if state == 0 {
        blockCount := 0;
      } else {
        blockCount := SECTION_SIZE;
      }
    }

    /** The non-air cells of the layers from `yStart` up to `yEnd`. */
    method CountLayers(yStart: nat, yEnd: nat) returns (n: nat)
      requires Valid() && yStart <= yEnd <= 16
      ensures n == NonAir(Cells()[SLAB * yStart..SLAB * yEnd])
    {
      hide NonAir, Section.Cells;
      n := 0;
      NonAirNone();
      for y := yStart to yEnd
        invariant n == NonAir(Cells()[SLAB * yStart..SLAB * y])
      {
        var base := y * SLAB;
        for i := 0 to SLAB
          invariant n == NonAir(Cells()[SLAB * yStart..base + i])
        {
          NonAirNext(Cells(), SLAB * yStart, base + i);
          if Get(base + i) != 0 {
            n := n + 1;
          }
        }
      }
    }

    /** The layers from `y0` up to `y1`, not all of them, are filled. */
    method FillLayers(y0: nat, y1: nat, state: State)
      requires Valid() && y0 < y1 <= 16
      modifies this, Objects()
      ensures Valid() && fresh(Objects() - old(Objects()))
      ensures old(Counted()) ==>
                ExactIffHeld(Slab(old(Cells()), SLAB * y0, SLAB * y1, state), old(GoesDirect(state)))
    {
      hide NonAir, Stored, Slab, InU16, Truncated, Section.Valid, Section.Cells, Section.GoesDirect, Uniform;
      ghost var cells, direct, counted := Cells(), GoesDirect(state), Counted();
      var oldNonAir := CountLayers(y0, y1);
      ImplFillRange(y0, y1, state);
      var newNonAir := if state != 0 then (y1 - y0) * SLAB else 0;
      EditIsExact(cells, SLAB * y0, SLAB * y1, state, direct);
      blockCount := (blockCount - oldNonAir + newNonAir) % 0x1_0000;
      if blockCount == 0 {
        DemoteToAir();
      }
    }

    /** As `Set`, for whole layers; the bounds are first clamped to the section. */
    method FillRange(yStart: int, yEnd: int, state: State)
      requires Valid()
      modifies this, Objects()
      ensures Valid() && fresh(Objects() - old(Objects()))
      ensures var y0, y1 := Clamp(yStart), Clamp(yEnd);
              && (y0 >= y1 ==> Cells() == old(Cells()) && blockCount == old(blockCount))
              && (y0 < y1 && old(Counted()) ==>
                    ExactIffHeld(Slab(old(Cells()), SLAB * y0, SLAB * y1, state),
                                 old(GoesDirect(state)) && y1 - y0 < 16))
    {
      hide NonAir, Slab, InU16, Section.Valid, Section.Cells, Section.GoesDirect, Uniform;
      var y0 := if yStart < 0 then 0 else yStart;
      var y1 := if yEnd > 16 then 16 else yEnd;
      if y0 >= y1 {
        return;
      }
      if y0 == 0 && y1 == 16 {
        FullSlab(Cells(), state);
        Fill(state);
        return;
      }
      FillLayers(y0, y1, state);
    }
  }

  lemma FullSlab(cells: Cells, state: State)
    ensures Slab(cells, 0, SECTION_SIZE, state) == Uniform(state)
  {
  }

  function Clamp(y: int): (c: nat)
    ensures c <= 16
  {
    if y < 0 then 0 else if y > 16 then 16 else y
  }

  /** The stretch filled between two bounds is the layers from the one up to the other, whatever they are. */
  lemma LayersFilled(cells: Cells, yStart: int, yEnd: int, state: State, x: nat, y: nat, z: nat)
    requires x < 16 && y < 16 && z < 16
    ensures Slab(cells, 256 * Clamp(yStart), 256 * Clamp(yEnd), state)[y * 256 + z * 16 + x]
            == if yStart <= y < yEnd then state else cells[y * 256 + z * 16 + x]
  {
    var k := y * 256 + z * 16 + x;
    assert 256 * y <= k < 256 * (y + 1);
    assert 256 * Clamp(yStart) <= k < 256 * Clamp(yEnd) <==> yStart <= y < yEnd;
  }

  /**
   The arithmetic behind every edit: the adjusted count is that of the plain result
   and cannot wrap, and the stored cells are the plain result exactly when the form can hold it.
   */
  lemma EditIsExact(cells: Cells, lo: nat, hi: nat, state: State, direct: bool)
    requires lo < hi <= SECTION_SIZE
    ensures var plain := Slab(cells, lo, hi, state);
            var count := NonAir(cells) - NonAir(cells[lo..hi]) + (if state != 0 then hi - lo else 0);
            && count == NonAir(plain) && 0 <= count <= SECTION_SIZE
            && (Stored(plain, direct) == plain <==> (direct ==> InU16(plain)))
            && (count == 0 ==> plain == Uniform(0) && NonAir(Uniform(0)) == 0 && InU16(plain))
            && (Stored(plain, direct) == Uniform(0) && count == 0 ==> direct ==> InU16(plain))
  {
    var plain := Slab(cells, lo, hi, state);
    NonAirSlab(cells, lo, hi, state);
    StoredExactly(plain, direct);
    if NonAir(plain) == 0 {
      NonAirZero(plain);
      assert plain == Uniform(0);
    }
  }
}
