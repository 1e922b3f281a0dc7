/**
 A world's blocks: chunks generated on first use and addressed by packed
 coordinates, behaving as one map from positions to block states.
 */
module Dimensions {
  import opened Bits
  import opened Wrappers
  import opened Sections
  import opened Chunks

  const PLACEHOLDER_SECTIONS := 9
  const PLACEHOLDER_STATE := 9
  const TWO32 := 0x1_0000_0000
  const TWO36 := 0x10_0000_0000

  /** `uint64(x) << 32 | uint64(z) & 0xFFFFFFFF`. */
  function ChunkKey(x: int, z: int): nat {
    Or(Low(Shl(ToU64(x), 32), 64), And(ToU64(z), 0xFFFF_FFFF))
  }

  lemma Pow32()
    ensures Pow2(32) == TWO32
  {
    assert Pow2(8) == 0x100;
    PowSum(8, 8);
    PowSum(16, 16);
  }

  lemma {:induction false} PowSum(a: nat, b: nat)
    ensures Pow2(a + b) == Pow2(a) * Pow2(b)
  {
    if a == 0 {
    } else {
      PowSum(a - 1, b);
    }
  }

  lemma ModOfMod(x: int)
    ensures ToU64(x) % TWO32 == x % TWO32
  {
    var q := x / 0x1_0000_0000_0000_0000;
    assert x == q * 0x1_0000_0000_0000_0000 + ToU64(x);
    assert x == (q * TWO32) * TWO32 + ToU64(x);
  }

  /** The key is the pair of the coordinates' low 32 bits. */
  lemma KeyIsPair(x: int, z: int)
    ensures ChunkKey(x, z) == x % TWO32 * TWO32 + z % TWO32
  {
    hide Low, And, Or, Shl, Shr, Pow2, Mask;
    Pow32();
    MaskValue(32);
    AndMask(ToU64(z), 32);
    LowOfShl(ToU64(x), 32, 32);
    LowIsMod(ToU64(x), 32);
    LowIsMod(ToU64(z), 32);
    ModOfMod(x);
    ModOfMod(z);
    ShlIsTimes(x % TWO32, 32);
    OrSym(Shl(x % TWO32, 32), z % TWO32);
    OrIsPlus(z % TWO32, x % TWO32, 32);
  }

  function KeyOf(p: BlockPos): nat {
    ChunkKey(p.x / 16, p.z / 16)
  }

  /** Two positions that the dimension stores in one cell. */
  predicate SameCell(p: BlockPos, q: BlockPos) {
    KeyOf(p) == KeyOf(q) && p.y == q.y && p.x % 16 == q.x % 16 && p.z % 16 == q.z % 16
  }

  lemma CongruentParts(x: int, y: int)
    ensures (x - y) % TWO36 == 0 <==> x / 16 % TWO32 == y / 16 % TWO32 && x % 16 == y % 16
  {
    if (x - y) % TWO36 == 0 {
      var k := (x - y) / TWO36;
      assert x == y + 16 * (k * TWO32);
      assert x / 16 == y / 16 + k * TWO32;
    }
    if x / 16 % TWO32 == y / 16 % TWO32 && x % 16 == y % 16 {
      var k := x / 16 / TWO32 - y / 16 / TWO32;
      assert x / 16 - y / 16 == k * TWO32;
      assert x - y == k * TWO36;
    }
  }

  /** Cells coincide exactly for positions a multiple of 2^36 apart. */
  lemma SameCellIffCongruent(p: BlockPos, q: BlockPos)
    ensures SameCell(p, q) <==> p.y == q.y && (p.x - q.x) % TWO36 == 0 && (p.z - q.z) % TWO36 == 0
  {
    hide ChunkKey;
    KeyIsPair(p.x / 16, p.z / 16);
    KeyIsPair(q.x / 16, q.z / 16);
    CongruentParts(p.x, q.x);
    CongruentParts(p.z, q.z);
  }

  /** The origin and the block 2^36 east of it are one. */
  lemma FarBlocksShare()
    ensures SameCell(BlockPos(0, 64, 0), BlockPos(TWO36, 64, 0))
  {
    hide SameCell;
    SameCellIffCongruent(BlockPos(0, 64, 0), BlockPos(TWO36, 64, 0));
  }

  /** Block coordinates whose chunk coordinates fit 32 bits. */
  predicate InKeyRange(p: BlockPos) {
    -TWO36 / 2 <= p.x < TWO36 / 2 && -TWO36 / 2 <= p.z < TWO36 / 2
  }

  lemma NoAliasing(p: BlockPos, q: BlockPos)
    requires InKeyRange(p) && InKeyRange(q)
    ensures SameCell(p, q) <==> p == q
  {
    hide SameCell;
    SameCellIffCongruent(p, q);
    NearbyCongruent(p.x - q.x);
    NearbyCongruent(p.z - q.z);
    if p == q { SameCellReflexive(p); }
  }

  lemma NearbyCongruent(d: int)
    requires -TWO36 < d < TWO36
    ensures d % TWO36 == 0 <==> d == 0
  {
  }

  lemma SameCellReflexive(p: BlockPos)
    ensures SameCell(p, p)
  {
  }

  // ----- the contents of chunks as values

  function PlaceholderColumn(n: nat): seq<Cells> {
    seq(n, i => PlaceholderSection(i))
  }

  function PlaceholderSection(i: int): Cells {
    if i < PLACEHOLDER_SECTIONS then Uniform(PLACEHOLDER_STATE) else Uniform(0)
  }

  /** The cell of a column that `p` addresses. */
  function CellOf(p: BlockPos, minY: int): nat {
    CellIndex(p.x % 16, p.y, p.z % 16, minY)
  }

  predicate InColumn(p: BlockPos, minY: int, n: nat) {
    0 <= SectionIndex(p.y, minY) < n && CellOf(p, minY) < SECTION_SIZE
  }

  lemma AddressInColumn(p: BlockPos, minY: int, n: nat)
    requires 0 <= SectionIndex(p.y, minY) < n
    ensures InColumn(p, minY, n)
  {
    CellIndexIsPositional(p.x % 16, p.y, p.z % 16, minY);
  }

  /** One column write, seen through positions that share the column's key. */
  lemma WriteSeenFrom(column: seq<Cells>, p: BlockPos, q: BlockPos, minY: int, state: BlockState)
    requires InColumn(p, minY, |column|) && InColumn(q, minY, |column|)
    requires KeyOf(p) == KeyOf(q)
    ensures var after := ColumnWrite(column, SectionIndex(p.y, minY), CellOf(p, minY), state);
            after[SectionIndex(q.y, minY)][CellOf(q, minY)]
            == if SameCell(p, q) then state else column[SectionIndex(q.y, minY)][CellOf(q, minY)]
  {
    hide KeyOf, CellIndex, Uniform;
    if SectionIndex(p.y, minY) == SectionIndex(q.y, minY) {
      SameCellIndex(p.x % 16, p.y, p.z % 16, q.x % 16, q.y, q.z % 16, minY);
    }
  }

  /** A generated column holds state 9 in its lowest 144 layers and air above. */
  lemma PlaceholderAt(p: BlockPos, minY: int, n: nat)
    ensures 0 <= SectionIndex(p.y, minY) < n <==> minY <= p.y < minY + 16 * n
    ensures 0 <= SectionIndex(p.y, minY) < n ==>
              && CellOf(p, minY) < SECTION_SIZE
              && PlaceholderColumn(n)[SectionIndex(p.y, minY)][CellOf(p, minY)] == if p.y < minY + 144 then 9 else 0
  {
    hide CellIndex;
    if 0 <= SectionIndex(p.y, minY) < n { AddressInColumn(p, minY, n); }
  }

  // ----- the dimension

  datatype HeightError = HeightOutOfBounds(y: int) | InChunk(e: ChunkError)

  class Dimension {
    const MinY: int
    const Height: nat
    var Chunks: map<nat, Chunk>
    ghost var Repr: set<object>

    ghost predicate ChunkOk(c: Chunk)
      reads this`Repr, c, c.Repr
    {
      && c in c.Repr && c.Repr <= Repr && this !in c.Repr
      && c.Valid() && c.minY == MinY && c.Sections.Length == Height / 16
    }

    ghost predicate Valid()
      reads this, Repr
    {
      && this in Repr
      && (forall k | k in Chunks :: Chunks[k] in Repr && Chunks[k].Repr <= Repr && ChunkOk(Chunks[k]))
      && (forall k, l | k in Chunks && l in Chunks && k != l :: Chunks[k].Repr !! Chunks[l].Repr)
    }

    /** The states under a key; a chunk not yet generated has the placeholder's. */
    ghost function Column(key: nat): (c: seq<Cells>)
      reads this, Repr
      requires Valid()
      ensures |c| == Height / 16
    {
      if key in Chunks then Chunks[key].Contents() else PlaceholderColumn(Height / 16)
    }

    ghost function EntitiesIn(key: nat): map<BlockPos, BlockEntity>
      reads this, Repr
      requires Valid()
    {
      if key in Chunks then Chunks[key].blockEntities else map[]
    }

    /** The heights the dimension holds blocks at: from the lowest on, as many whole sections as fit its height. */
    predicate HasY(y: int): (held: bool)
      ensures held <==> MinY <= y < MinY + Height - Height % 16
    {
      MinY <= y < MinY + Height && SectionIndex(y, MinY) < Height / 16
    }

    ghost function Block(p: BlockPos): State
      reads this, Repr
      requires Valid() && HasY(p.y)
    {
      AddressInColumn(p, MinY, Height / 16);
      Column(KeyOf(p))[SectionIndex(p.y, MinY)][CellOf(p, MinY)]
    }

    /** The state read at `p`, 0 where the dimension holds no blocks. */
    ghost function StateAt(p: BlockPos): State
      reads this, Repr
      requires Valid()
    {
      if HasY(p.y) then Block(p) else 0
    }

    ghost function EntityAt(p: BlockPos): Option<BlockEntity>
      reads this, Repr
      requires Valid()
    {
      if p in EntitiesIn(KeyOf(p)) then Some(EntitiesIn(KeyOf(p))[p]) else None
    }

    constructor (minY: int, height: nat)
      ensures Valid() && fresh(Repr) && MinY == minY && Height == height
      ensures forall k :: Column(k) == PlaceholderColumn(height / 16)
      ensures forall k :: EntitiesIn(k) == map[]
      ensures forall p :: StateAt(p) == if minY <= p.y < minY + 144 && p.y < minY + height - height % 16 then 9 else 0
    {
      MinY, Height := minY, height;
      Chunks := map[];
      new;
      Repr := {this};
      forall p ensures StateAt(p) == if minY <= p.y < minY + 144 && p.y < minY + height - height % 16 then 9 else 0 {
        PlaceholderAt(p, minY, height / 16);
      }
    }

    /** Finds or generates a chunk; generating one shows nothing that was not already there. */
    method GetChunk(x: int, z: int) returns (chunk: Chunk)
      requires Valid()
      modifies this`Chunks, this`Repr
      ensures Valid() && fresh(Repr - old(Repr)) && old(Repr) <= Repr
      ensures ChunkKey(x, z) in Chunks && Chunks[ChunkKey(x, z)] == chunk
      ensures forall k :: Column(k) == old(Column(k))
      ensures forall k :: EntitiesIn(k) == old(EntitiesIn(k))
    {
      hide Chunk.Valid, Chunk.Contents, ChunkKey, PlaceholderColumn;
      var key := ChunkKey(x, z);
      if key in Chunks {
        return Chunks[key];
      }
      chunk := GeneratePlaceholderChunk(x, z, MinY, Height);
      RememberSelf(chunk);
      Chunks := Chunks[key := chunk];
      Repr := Repr + chunk.Repr + {chunk};
      forall k ensures Column(k) == old(Column(k)) && EntitiesIn(k) == old(EntitiesIn(k)) {
        if k in old(Chunks) {
          assert old(ChunkOk(Chunks[k]));
        }
      }
    }

    method GetBlock(x: int, y: int, z: int) returns (r: Result<State, HeightError>)
      requires Valid()
      modifies this`Chunks, this`Repr
      ensures Valid() && fresh(Repr - old(Repr)) && old(Repr) <= Repr
      ensures forall k :: Column(k) == old(Column(k))
      ensures forall k :: EntitiesIn(k) == old(EntitiesIn(k))
      ensures r.Ok? == HasY(y)
      ensures y < MinY || y >= MinY + Height ==> r == Err(HeightOutOfBounds(y))
      ensures r.Ok? ==> r.value == old(Block(BlockPos(x, y, z)))
    {
      hide Chunk.Valid, Chunk.Contents, ChunkKey, PlaceholderColumn, CellIndex;
      if y < MinY || y >= MinY + Height {
        return Err(HeightOutOfBounds(y));
      }
      var chunk := GetChunk(x / 16, z / 16);
      var inChunk := chunk.GetBlock(x % 16, y, z % 16);
      match inChunk {
        case Ok(state) => r := Ok(state);
        case Err(e) => r := Err(InChunk(e));
      }
    }

    /** Writes one block of an existing chunk. */
    method WriteChunk(key: nat, x: nat, y: int, z: nat, state: BlockState) returns (err: Option<ChunkError>)
      requires Valid() && key in Chunks && x < 16 && z < 16
      modifies this`Repr, Chunks[key].Repr
      ensures Valid() && fresh(Repr - old(Repr)) && Chunks == old(Chunks)
      ensures err.None? == (0 <= SectionIndex(y, MinY) < Height / 16)
      ensures CellIndex(x, y, z, MinY) < SECTION_SIZE
      ensures forall k :: Column(k) ==
                if err.None? && k == key
                then ColumnWrite(old(Column(k)), SectionIndex(y, MinY), CellIndex(x, y, z, MinY), state)
                else old(Column(k))
      ensures forall k :: EntitiesIn(k) == old(EntitiesIn(k))
    {
      hide Chunk.Valid, Chunk.Contents, ChunkKey, PlaceholderColumn, CellIndex;
      var chunk := Chunks[key];
      assert ChunkOk(chunk);
      err := chunk.SetBlock(x, y, z, state);
      RememberSelf(chunk);
      Repr := Repr + chunk.Repr;
      forall k | k in Chunks && k != key
        ensures Chunks[k].Repr == old(Chunks[k].Repr) && ChunkOk(Chunks[k])
        ensures Chunks[k].Contents() == old(Chunks[k].Contents())
        ensures Chunks[k].blockEntities == old(Chunks[k].blockEntities)
      {
        assert old(ChunkOk(Chunks[k]));
      }
      assert ChunkOk(chunk);
    }

    /** One block is written; every position stored elsewhere, and every block entity, is as before. */
    method SetBlock(x: int, y: int, z: int, state: BlockState) returns (err: Option<HeightError>)
      requires Valid()
      modifies this, Repr
      ensures Valid() && fresh(Repr - old(Repr))
      ensures err.None? == HasY(y)
      ensures y < MinY || y >= MinY + Height ==> err == Some(HeightOutOfBounds(y))
      ensures forall q ::
                StateAt(q) == if HasY(q.y) && SameCell(BlockPos(x, y, z), q) then state else old(StateAt(q))
      ensures forall q :: EntityAt(q) == old(EntityAt(q))
    {
      hide Chunk.Valid, Chunk.Contents, ChunkKey, PlaceholderColumn, CellIndex, ColumnWrite;
      if y < MinY || y >= MinY + Height {
        return Some(HeightOutOfBounds(y));
      }
      var chunk := GetChunk(x / 16, z / 16);
      ghost var p := BlockPos(x, y, z);
      ghost var columns := Column(KeyOf(p));
      var inChunk := WriteChunk(ChunkKey(x / 16, z / 16), x % 16, y, z % 16, state);
      forall q
        ensures StateAt(q) == if HasY(q.y) && SameCell(p, q) then state else old(StateAt(q))
      {
        if HasY(q.y) {
          AddressInColumn(q, MinY, Height / 16);
          if inChunk.None? && KeyOf(p) == KeyOf(q) {
            WriteSeenFrom(columns, p, q, MinY, state);
          }
        }
      }
      forall q ensures EntityAt(q) == old(EntityAt(q)) {
        assert EntitiesIn(KeyOf(q)) == old(EntitiesIn(KeyOf(q)));
      }
      err := match inChunk case None => None case Some(e) => Some(InChunk(e));
    }

    method AddBlockEntity(be: BlockEntity)
      requires Valid()
      modifies this, Repr
      ensures Valid() && fresh(Repr - old(Repr))
      ensures forall q :: StateAt(q) == old(StateAt(q))
      ensures forall q :: EntityAt(q) == if q == be.pos then Some(be) else old(EntityAt(q))
    {
      hide Chunk.Valid, Chunk.Contents, ChunkKey, PlaceholderColumn;
      var chunk := GetChunk(be.pos.x / 16, be.pos.z / 16);
      assert ChunkOk(chunk);
      label Found:
      chunk.SetBlockEntity(be);
      RememberSelf(chunk);
      OthersKept@Found(KeyOf(be.pos));
    }

    method RemoveBlockEntity(pos: BlockPos)
      requires Valid()
      modifies this, Repr
      ensures Valid() && fresh(Repr - old(Repr))
      ensures forall q :: StateAt(q) == old(StateAt(q))
      ensures forall q :: EntityAt(q) == if q == pos then None else old(EntityAt(q))
    {
      hide Chunk.Valid, Chunk.Contents, ChunkKey, PlaceholderColumn;
      var chunk := GetChunk(pos.x / 16, pos.z / 16);
      assert ChunkOk(chunk);
      label Found:
      chunk.RemoveBlockEntity(pos);
      RememberSelf(chunk);
      OthersKept@Found(KeyOf(pos));
    }

    /** Changing only the block entity index of one chunk keeps the dimension and all its blocks. */
    twostate lemma OthersKept(key: nat)
      requires old(Valid()) && key in Chunks && old(Chunks) == Chunks && old(Repr) == Repr
      requires forall o: object | o in old(Repr) && o != Chunks[key] :: unchanged(o)
      requires Chunks[key].Valid() && Chunks[key] in Chunks[key].Repr
      requires Chunks[key].Repr == old(Chunks[key].Repr)
      requires Chunks[key].Contents() == old(Chunks[key].Contents())
      ensures Valid()
      ensures forall k :: Column(k) == old(Column(k))
      ensures forall k | k != key :: EntitiesIn(k) == old(EntitiesIn(k))
    {
      hide Chunk.Valid, Chunk.Contents, PlaceholderColumn;
      forall k | k in Chunks && k != key
        ensures Chunks[k].Repr == old(Chunks[k].Repr) && ChunkOk(Chunks[k])
        ensures Chunks[k].Contents() == old(Chunks[k].Contents())
        ensures Chunks[k].blockEntities == old(Chunks[k].blockEntities)
      {
        assert old(ChunkOk(Chunks[k]));
      }
      assert ChunkOk(Chunks[key]);
    }
  }

  lemma RememberSelf(c: Chunk)
    requires c.Valid()
    ensures c in c.Repr
  {
  }

  method GeneratePlaceholderChunk(x: int, z: int, minY: int, height: nat) returns (chunk: Chunk)
    ensures fresh(chunk) && chunk.Valid() && fresh(chunk.Repr)
    ensures chunk.minY == minY && chunk.Sections.Length == height / 16
    ensures chunk.Contents() == PlaceholderColumn(height / 16) && chunk.blockEntities == map[]
  {
    hide Chunk.Valid, Chunk.Contents, Uniform;
    var numSections := height / 16;
    chunk := new Chunk(x, z, numSections, minY);
    var i := 0;
    while i < PLACEHOLDER_SECTIONS && i < numSections
      invariant 0 <= i <= numSections && i <= PLACEHOLDER_SECTIONS
      invariant chunk.Valid() && fresh(chunk.Repr) && chunk.blockEntities == map[]
      invariant forall j | 0 <= j < numSections ::
                  chunk.Contents()[j] == if j < i then Uniform(PLACEHOLDER_STATE) else Uniform(0)
    {
      chunk.Fill(i, PLACEHOLDER_STATE);
      i := i + 1;
    }
    assert chunk.Contents() == PlaceholderColumn(numSections);
  }
}
