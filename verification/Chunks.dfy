/**
 A column of lazily created sections, with the index of its block entities and
 the list of those that tick.
 */
module Chunks {
  import opened Bits
  import opened Wrappers
  import opened Sections

  /** Block state ids index the block registry, which fits 16 bits. */
  type BlockState = x: int | 0 <= x < 0x1_0000

  datatype BlockPos = BlockPos(x: int, y: int, z: int)

  /** An entity attached to a block; `ticks` says whether it also is a ticker. */
  class BlockEntity {
    const pos: BlockPos
    const ticks: bool

    constructor (pos: BlockPos, ticks: bool)
      ensures this.pos == pos && this.ticks == ticks
    {
      this.pos := pos;
      this.ticks := ticks;
    }
  }

  datatype ChunkError = YOutOfBounds(y: int)

  // ----- addressing inside a chunk

  /** Which section `y` falls in: `(y - minY) >> 4`, rounding down. */
  function SectionIndex(y: int, minY: int): (si: int)
    ensures minY + 16 * si <= y < minY + 16 * (si + 1)
  {
    (y - minY) / 16
  }

  /** `((y - minY) & 15) << 8 | z << 4 | x`. */
  function CellIndex(x: nat, y: int, z: nat, minY: int): nat {
    Or(Or(Shl((y - minY) % 16, 8), Shl(z, 4)), x)
  }

  /** The packed cell index is positional, so distinct local coordinates have distinct cells. */
  lemma CellIndexIsPositional(x: nat, y: int, z: nat, minY: int)
    requires x < 16 && z < 16
    ensures CellIndex(x, y, z, minY) == (y - minY) % 16 * 256 + z * 16 + x
    ensures CellIndex(x, y, z, minY) < SECTION_SIZE
  {
    var l := (y - minY) % 16;
    var zx := Or(x, Shl(z, 4));
    assert Pow2(4) == 16 && Pow2(8) == 256;
    OrIsPlus(x, z, 4);
    ShlIsTimes(z, 4);
    ShlIsTimes(l, 8);
    OrIsPlus(zx, l, 8);
    OrSym(x, Shl(z, 4));
    OrSym(zx, Shl(l, 8));
    OrAssoc(Shl(l, 8), Shl(z, 4), x);
  }

  lemma SameCellIndex(x: nat, y: int, z: nat, x': nat, y': int, z': nat, minY: int)
    requires x < 16 && z < 16 && x' < 16 && z' < 16
    requires SectionIndex(y, minY) == SectionIndex(y', minY)
    ensures CellIndex(x, y, z, minY) == CellIndex(x', y', z', minY) <==> (x, y, z) == (x', y', z')
  {
    hide CellIndex;
    CellIndexIsPositional(x, y, z, minY);
    CellIndexIsPositional(x', y', z', minY);
    DigitsDiffer((y - minY) % 16, z, x, (y' - minY) % 16, z', x');
  }

  lemma DigitsDiffer(a: nat, b: nat, c: nat, a': nat, b': nat, c': nat)
    requires b < 16 && c < 16 && b' < 16 && c' < 16
    ensures a * 256 + b * 16 + c == a' * 256 + b' * 16 + c' <==> a == a' && b == b' && c == c'
  {
  }

  // ----- the block entity index

  /** The map is keyed by position and the tickers are exactly its ticking entities, one a position. */
  ghost predicate Indexed(entities: map<BlockPos, BlockEntity>, tickers: seq<BlockEntity>) {
    && (forall p | p in entities :: entities[p].pos == p)
    && (forall p | p in entities && entities[p].ticks :: entities[p] in tickers)
    && (forall i | 0 <= i < |tickers| ::
          tickers[i].ticks && tickers[i].pos in entities && entities[tickers[i].pos] == tickers[i])
    && OnePerPosition(tickers)
  }

  ghost predicate OnePerPosition(tickers: seq<BlockEntity>) {
    forall i, j | 0 <= i < j < |tickers| :: tickers[i].pos != tickers[j].pos
  }

  lemma IndexedWithout(entities: map<BlockPos, BlockEntity>, tickers: seq<BlockEntity>,
                       after: seq<BlockEntity>, pos: BlockPos)
    requires Indexed(entities, tickers) && OnePerPosition(after)
    requires forall t :: t in after <==> t in tickers && t.pos != pos
    ensures Indexed(entities - {pos}, after)
  {
    forall i | 0 <= i < |after|
      ensures after[i].ticks && after[i].pos in entities - {pos} && entities[after[i].pos] == after[i]
    {
      assert after[i] in after;
    }
  }

  lemma IndexedWith(entities: map<BlockPos, BlockEntity>, tickers: seq<BlockEntity>, be: BlockEntity)
    requires Indexed(entities, tickers) && be.pos !in entities
    ensures Indexed(entities[be.pos := be], if be.ticks then tickers + [be] else tickers)
  {
  }

  lemma NothingToRemove(entities: map<BlockPos, BlockEntity>, tickers: seq<BlockEntity>, pos: BlockPos)
    requires pos !in entities
    ensures entities - {pos} == entities
  {
  }

  // ----- the chunk

  function AirColumn(n: nat): seq<Cells> {
    seq(n, _ => Uniform(0))
  }

  /** A write of one cell of a column. */
  function ColumnWrite(column: seq<Cells>, si: nat, idx: nat, state: BlockState): seq<Cells>
    requires si < |column| && idx < SECTION_SIZE
  {
    column[si := column[si][idx := state]]
  }

  class Chunk {
    const X: int
    const Z: int
    const Sections: array<Section?>
    const minY: int
    var blockEntities: map<BlockPos, BlockEntity>
    var tickers: seq<BlockEntity>
    var hmDirty: bool
    ghost var Repr: set<object>

    /** A section's own objects, with the section itself. */
    ghost predicate SectionOk(s: Section)
      reads this`Repr, s, s.Objects()
    {
      && s in Repr && s.Objects() <= Repr
      && this !in s.Objects() && Sections !in s.Objects() && s !in s.Objects()
      && s.Valid() && s.Counted() && InU16(s.Cells())
    }

    ghost predicate Valid()
      reads this, Repr
    {
      && this in Repr && Sections in Repr
      && (forall i | 0 <= i < Sections.Length && Sections[i] != null ::
            Sections[i] in Repr && Sections[i].Objects() <= Repr && SectionOk(Sections[i]))
      && (forall i, j | 0 <= i < j < Sections.Length && Sections[i] != null && Sections[j] != null ::
            Sections[i] != Sections[j] && Sections[i].Objects() !! Sections[j].Objects())
      && Indexed(blockEntities, tickers)
    }

    /** The states of every section; an absent section is air. */
    ghost function Contents(): (c: seq<Cells>)
      reads this, Repr
      requires Valid()
      ensures |c| == Sections.Length
    {
      seq(Sections.Length, i requires 0 <= i < Sections.Length reads this, Repr requires Valid() =>
        if Sections[i] == null then Uniform(0) else Sections[i].Cells())
    }

    predicate HasY(y: int) {
      0 <= SectionIndex(y, minY) < Sections.Length
    }

    constructor (x: int, z: int, numSections: nat, minY: int)
      ensures Valid() && fresh(Repr)
      ensures X == x && Z == z && this.minY == minY && Sections.Length == numSections
      ensures Contents() == AirColumn(numSections)
      ensures blockEntities == map[]
    {
      X, Z := x, z;
      this.minY := minY;
      Sections := new Section?[numSections](_ => null);
      blockEntities, tickers := map[], [];
      hmDirty := false;
      new;
      Repr := {this, Sections};
    }

    method GetBlock(x: nat, y: int, z: nat) returns (r: Result<State, ChunkError>)
      requires Valid() && x < 16 && z < 16
      ensures r.Ok? == HasY(y)
      ensures r.Ok? ==> CellIndex(x, y, z, minY) < SECTION_SIZE
      ensures r.Ok? ==> r.value == Contents()[SectionIndex(y, minY)][CellIndex(x, y, z, minY)]
    {
      hide Indexed, Section.Valid, Section.Cells, NonAir, CellIndex;
      var si := (y - minY) / 16;
      CellIndexIsPositional(x, y, z, minY);
      if si < 0 || si >= Sections.Length {
        return Err(YOutOfBounds(y));
      }
      var sec := Sections[si];
      if sec == null {
        return Ok(0);
      }
      return Ok(sec.Get(CellIndex(x, y, z, minY)));
    }

    /** Puts a new one-state section, or none for air, in place of a section. */
    method PutSection(si: nat, sec: Section?, state: BlockState)
      requires Valid() && si < Sections.Length
      requires sec == null ==> state == 0
      requires sec != null ==>
                 sec !in Repr && sec.Objects() == {} && sec.Valid() && sec.Counted() && sec.Cells() == Uniform(state)
      modifies this`Repr, Sections
      ensures Valid() && Repr == old(Repr) + (if sec == null then {} else {sec})
      ensures Sections[si] == sec && Contents() == old(Contents())[si := Uniform(state)]
    {
      hide Indexed, Section.Valid, Section.Cells, NonAir, Uniform, InU16;
      ghost var before := Contents();
      UniformStates(state);
      Sections[si] := sec;
      if sec != null {
        Repr := Repr + {sec};
      }
      assert forall i | 0 <= i < Sections.Length && i != si :: Contents()[i] == before[i];
    }

    /** A missing section is created as air, which nothing can see. */
    method CreateSection(si: nat)
      requires Valid() && si < Sections.Length && Sections[si] == null
      modifies this`Repr, Sections
      ensures Valid() && fresh(Repr - old(Repr)) && old(Repr) <= Repr
      ensures Sections[si] != null && Contents() == old(Contents())
    {
      hide Indexed, Section.Valid, Section.Cells, NonAir, Uniform;
      var sec := new Section(0);
      assert Contents()[si] == Uniform(0);
      PutSection(si, sec, 0);
    }

    method WriteSection(si: nat, idx: nat, state: BlockState)
      requires Valid() && si < Sections.Length && Sections[si] != null && idx < SECTION_SIZE
      modifies this`Repr, Sections[si], Sections[si].Objects()
      ensures Valid() && fresh(Repr - old(Repr))
      ensures Contents() == ColumnWrite(old(Contents()), si, idx, state)
    {
      hide Indexed, Section.Valid, Section.Cells, Section.GoesDirect, NonAir, InU16, Section.ExactIffHeld, Uniform;
      ghost var before := Contents();
      var sec := Sections[si];
      var _ := sec.Set(idx, state);
      Repr := Repr + sec.Objects();
      forall i | 0 <= i < Sections.Length && i != si && Sections[i] != null
        ensures Sections[i].Objects() == old(Sections[i].Objects()) && SectionOk(Sections[i])
        ensures Sections[i].Cells() == old(Sections[i].Cells())
      {
        assert old(SectionOk(Sections[i]));
      }
      assert SectionOk(sec);
      assert forall i | 0 <= i < Sections.Length && i != si :: Contents()[i] == before[i];
    }

    /** One cell is written; nothing else of the column, nor any block entity, changes. */
    method SetBlock(x: nat, y: int, z: nat, state: BlockState) returns (err: Option<ChunkError>)
      requires Valid() && x < 16 && z < 16
      modifies Repr
      ensures Valid() && fresh(Repr - old(Repr))
      ensures err.None? == HasY(y)
      ensures err.Some? ==> Contents() == old(Contents())
      ensures CellIndex(x, y, z, minY) < SECTION_SIZE
      ensures err.None? ==>
                Contents() == ColumnWrite(old(Contents()), SectionIndex(y, minY), CellIndex(x, y, z, minY), state)
      ensures blockEntities == old(blockEntities) && tickers == old(tickers)
    {
      hide Indexed, Section.Valid, Section.Cells, Section.GoesDirect, NonAir, CellIndex;
      var si := (y - minY) / 16;
      CellIndexIsPositional(x, y, z, minY);
      if si < 0 || si >= Sections.Length {
        return Some(YOutOfBounds(y));
      }
      if Sections[si] == null {
        if state == 0 {
          assert Contents()[si][CellIndex(x, y, z, minY) := state] == Contents()[si];
          return None;
        }
        CreateSection(si);
      }
      WriteSection(si, CellIndex(x, y, z, minY), state);
      hmDirty := true;
      return None;
    }

    method RefillSection(si: nat, state: BlockState)
      requires Valid() && si < Sections.Length && Sections[si] != null
      modifies Sections[si]
      ensures Valid() && Contents() == old(Contents())[si := Uniform(state)]
    {
      hide Indexed, Section.Valid, Section.Cells, NonAir, Uniform, InU16;
      ghost var before := Contents();
      UniformStates(state);
      Sections[si].Fill(state);
      forall i | 0 <= i < Sections.Length && i != si && Sections[i] != null
        ensures Sections[i].Objects() == old(Sections[i].Objects()) && SectionOk(Sections[i])
        ensures Sections[i].Cells() == old(Sections[i].Cells())
      {
        assert old(SectionOk(Sections[i]));
      }
      assert forall i | 0 <= i < Sections.Length && i != si :: Contents()[i] == before[i];
    }

    /** A whole section becomes one state, air by dropping the section. */
    method Fill(si: int, state: BlockState)
      requires Valid()
      modifies Repr
      ensures Valid() && fresh(Repr - old(Repr))
      ensures Contents() == if 0 <= si < Sections.Length then old(Contents())[si := Uniform(state)] else old(Contents())
      ensures blockEntities == old(blockEntities) && tickers == old(tickers)
    {
      hide Indexed, Section.Valid, Section.Cells, Section.GoesDirect, NonAir, Uniform, InU16;
      if si < 0 || si >= Sections.Length {
        return;
      }
      if state == 0 {
        PutSection(si, null, 0);
      } else if Sections[si] == null {
        var sec := new Section(state);
        PutSection(si, sec, state);
      } else {
        RefillSection(si, state);
      }
      hmDirty := true;
    }

    /** Drops the ticker at `pos`, moving the last one into its place. */
    method RemoveTicker(pos: BlockPos)
      requires OnePerPosition(tickers)
      modifies this`tickers
      ensures OnePerPosition(tickers)
      ensures forall t :: t in tickers <==> t in old(tickers) && t.pos != pos
    {
      for i := 0 to |tickers|
        invariant tickers == old(tickers)
        invariant forall k | 0 <= k < i :: tickers[k].pos != pos
      {
        if tickers[i].pos == pos {
          var last := |tickers| - 1;
          ghost var was := tickers;
          tickers := tickers[i := tickers[last]][..last];
          forall t ensures t in tickers <==> t in was && t.pos != pos {
            if t in was && t.pos != pos {
              var k :| 0 <= k < |was| && was[k] == t;
              assert tickers[if k == last then i else k] == t;
            }
          }
          return;
        }
      }
    }

    /** Replaces whatever entity was at the position, and its ticker with it. */
    method SetBlockEntity(be: BlockEntity)
      requires Valid()
      modifies this`blockEntities, this`tickers
      ensures Valid() && Contents() == old(Contents())
      ensures blockEntities == old(blockEntities)[be.pos := be]
    {
      hide Indexed, Section.Valid, Section.Cells, NonAir, Uniform, InU16;
      var pos := be.pos;
      ghost var entities, was, before := blockEntities, tickers, Contents();
      TickersOnce(entities, was);
      if pos in blockEntities {
        RemoveTicker(pos);
        IndexedWithout(entities, was, tickers, pos);
      } else {
        NothingToRemove(entities, was, pos);
      }
      IndexedWith(entities - {pos}, tickers, be);
      assert (entities - {pos})[pos := be] == entities[pos := be];
      blockEntities := blockEntities[pos := be];
      if be.ticks {
        tickers := tickers + [be];
      }
      assert forall i | 0 <= i < Sections.Length :: Contents()[i] == before[i];
    }

    method RemoveBlockEntity(pos: BlockPos)
      requires Valid()
      modifies this`blockEntities, this`tickers
      ensures Valid() && Contents() == old(Contents())
      ensures blockEntities == old(blockEntities) - {pos}
    {
      hide Indexed, Section.Valid, Section.Cells, NonAir, Uniform, InU16;
      ghost var was, before := tickers, Contents();
      if pos !in blockEntities {
        NothingToRemove(blockEntities, tickers, pos);
        return;
      }
      TickersOnce(blockEntities, was);
      RemoveTicker(pos);
      IndexedWithout(blockEntities, was, tickers, pos);
      blockEntities := blockEntities - {pos};
      assert forall i | 0 <= i < Sections.Length :: Contents()[i] == before[i];
    }
  }

  lemma TickersOnce(entities: map<BlockPos, BlockEntity>, tickers: seq<BlockEntity>)
    requires Indexed(entities, tickers)
    ensures OnePerPosition(tickers)
  {
  }

  lemma UniformStates(state: BlockState)
    ensures InU16(Uniform(state))
  {
  }

}
