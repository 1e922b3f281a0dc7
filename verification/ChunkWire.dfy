/**
 The block data of a chunk as sent: each section re-encoded in the wire container,
 with a size announced before anything is written.
 */
module ChunkWire {
  import opened Bits
  import opened Wrappers
  import opened VarInts
  import opened Palettes
  import opened PalettedContainers
  import opened WireDecoding
  import S = Sections
  import C = Chunks

  /** Cells of which only the first `n` have been copied, the rest still the first one's state. */
  function Copied(cells: Cells, n: nat): Cells {
    seq(SECTION_SIZE, k requires 0 <= k < SECTION_SIZE => if k < n then cells[k] else cells[0])
  }

  lemma CopyNext(cells: Cells, n: nat)
    requires n < SECTION_SIZE
    ensures Update(Copied(cells, n), n, cells[n]) == Copied(cells, n + 1)
  {
  }

  lemma CopyEnds(cells: Cells)
    ensures Copied(cells, 0) == Uniform(cells[0])
    ensures Copied(cells, SECTION_SIZE) == cells
  {
  }

  /** Some states are too many for a palette, so they are sent directly. */
  predicate SentDirectly(cells: Cells) {
    |StatesOf(cells)| > MAX_PALETTE
  }

  /** What a client is sent of a section's states. */
  function Sent(cells: Cells): Cells {
    Kept(cells, SentDirectly(cells))
  }

  /** That is the states themselves if and only if they fit a palette or fifteen bits. */
  lemma SentExactly(cells: Cells)
    ensures Sent(cells) == cells <==> (|StatesOf(cells)| > MAX_PALETTE ==> InWireRange(cells))
  {
    KeptExactly(cells, SentDirectly(cells));
  }

  /** The 4096 states from 32767 up are such a section: all but the first arrive 32768 too low. */
  lemma WideSectionIsCut()
    ensures var cells: Cells := seq(SECTION_SIZE, i => 32767 + i);
            SentDirectly(cells) && Sent(cells) != cells && Sent(cells)[1] == 0
  {
    var cells: Cells := seq(SECTION_SIZE, i => 32767 + i);
    DistinctStates(cells);
    assert cells[1] == DIRECT_RANGE;
    SentExactly(cells);
  }

  /** The container after the first `n` states have been copied: direct exactly when those are too many. */
  ghost predicate CopiedInto(pc: PalettedContainer, cells: Cells, n: nat)
    reads pc, pc.Repr
    requires pc.Valid() && n <= SECTION_SIZE
  {
    && (pc.c.Direct? <==> |StatesOf(cells[..n])| > MAX_PALETTE)
    && (!pc.c.Direct? ==> pc.Known() == StatesOf(cells[..n]) + {cells[0]})
    && pc.Cells() == Kept(Copied(cells, n), pc.c.Direct?)
  }

  lemma CopyStarts(cells: Cells)
    ensures StatesOf(cells[..0]) == {} && StatesOf([cells[0]]) == {cells[0]}
  {
  }

  /** The next state joins those copied, and is one too many exactly when the palette is full and lacks it. */
  lemma CopyStates(cells: Cells, n: nat, known: set<Int32>, direct: bool)
    requires n < SECTION_SIZE
    requires direct <==> |StatesOf(cells[..n])| > MAX_PALETTE
    requires !direct ==> known == StatesOf(cells[..n]) + {cells[0]}
    ensures !direct ==> known + {cells[n]} == StatesOf(cells[..n + 1]) + {cells[0]}
    ensures (direct || |known + {cells[n]}| > MAX_PALETTE) <==> |StatesOf(cells[..n + 1])| > MAX_PALETTE
  {
    hide StatesOf;
    OneMoreState(cells, n);
    MoreStates(StatesOf(cells[..n]), StatesOf(cells[..n + 1]));
    if !direct {
      FirstAmong(cells, n + 1);
      assert known + {cells[n]} == StatesOf(cells[..n + 1]) + {cells[0]} == StatesOf(cells[..n + 1]);
    }
  }

  lemma FirstAmong(cells: Cells, n: nat)
    requires 0 < n <= SECTION_SIZE
    ensures cells[0] in StatesOf(cells[..n])
  {
    assert cells[..n][0] == cells[0];
  }

  method CopyState(pc: PalettedContainer, state: Int32, j: nat, ghost cells: Cells)
    requires pc.Valid() && j < SECTION_SIZE && state == cells[j] && CopiedInto(pc, cells, j) && pc.Narrow()
    modifies pc.Repr
    ensures pc.Valid() && fresh(pc.Repr - old(pc.Repr)) && CopiedInto(pc, cells, j + 1) && pc.Narrow()
  {
    hide PalettedContainer.Narrow;
    hide PalettedContainer.Cells, PalettedContainer.Valid, PalettedContainer.Known, Kept, Copied, Update, Written;
    hide StatesOf;
    ghost var before := pc.c.Direct?;
    CopyNext(cells, j);
    CopyStates(cells, j, pc.Known(), before);
    pc.Set(j, state);
    KeptWrite(Copied(cells, j), j, cells[j], before, pc.c.Direct?);
  }

  /**
   Re-encode a section, with the least entry width for its distinct states. The direct form
   is used exactly for more than 256 of them, and every state is kept exactly unless one of
   those exceeds fifteen bits.
   */
  method SectionToWire(sec: S.Section) returns (pc: PalettedContainer)
    requires sec.Valid()
    ensures pc.Valid() && fresh(pc.Repr)
    ensures pc.c.Direct? <==> SentDirectly(old(sec.Cells()))
    ensures pc.Cells() == Sent(old(sec.Cells()))
    ensures pc.Cells() == old(sec.Cells()) <==>
            (|StatesOf(old(sec.Cells()))| > MAX_PALETTE ==> InWireRange(old(sec.Cells())))
    ensures FormBits(pc.Form()) == WidthFor(|StatesOf(old(sec.Cells()))|)
  {
    hide PalettedContainer.Narrow, PalettedContainer.Form, FormBits, WidthFor;
    hide S.Section.Valid, S.Section.Cells, PalettedContainer.Cells, PalettedContainer.Valid, PalettedContainer.Known;
    hide Kept, Copied, Update, Written, Uniform, StatesOf, InWireRange, CopiedInto;
    ghost var cells := sec.Cells();
    SentExactly(cells);
    CopyEnds(cells);
    var first := sec.Get(0);
    var single := true;
    var i := 0;
    while i < SECTION_SIZE && single
      invariant 0 <= i <= SECTION_SIZE
      invariant single ==> forall k | 0 <= k < i :: cells[k] == first
    {
      if sec.Get(i) != first {
        single := false;
      }
      i := i + 1;
    }
    pc := new PalettedContainer(first);
    assert sec.Objects() == old(sec.Objects());
    if single {
      AllFirst(cells);
      OneStateOnly(cells);
      pc.WidthIs();
      return;
    }
    NothingCopied(pc, cells);
    for j := 0 to SECTION_SIZE
      invariant sec.Valid() && sec.Cells() == cells
      invariant pc.Valid() && fresh(pc.Repr) && CopiedInto(pc, cells, j) && pc.Narrow()
    {
      CopyState(pc, sec.Get(j), j, cells);
    }
    AllCopied(pc, cells);
    WidthSent(pc, cells);
  }

  lemma OneStateOnly(cells: Cells)
    requires forall k | 0 <= k < SECTION_SIZE :: cells[k] == cells[0]
    ensures StatesOf(cells) == {cells[0]}
  {
    assert cells[0] in cells;
  }

  lemma WidthSent(pc: PalettedContainer, cells: Cells)
    requires pc.Valid() && pc.Narrow() && CopiedInto(pc, cells, SECTION_SIZE)
    ensures FormBits(pc.Form()) == WidthFor(|StatesOf(cells)|)
  {
    hide StatesOf, PalettedContainer.Cells, PalettedContainer.Known, PalettedContainer.Valid, Kept, Copied;
    assert cells[..SECTION_SIZE] == cells;
    if !pc.c.Direct? {
      FirstAmong(cells, SECTION_SIZE);
      assert StatesOf(cells) + {cells[0]} == StatesOf(cells);
      pc.WidthIs();
    }
  }

  lemma NothingCopied(pc: PalettedContainer, cells: Cells)
    requires pc.Valid() && pc.c.Single? && pc.Cells() == Uniform(cells[0]) && pc.Known() == {cells[0]}
    ensures CopiedInto(pc, cells, 0)
  {
    hide Copied, Uniform, StatesOf, PalettedContainer.Cells, PalettedContainer.Known;
    CopyEnds(cells);
    CopyStarts(cells);
    KeptPlain(cells);
    assert StatesOf(cells[..0]) + {cells[0]} == {cells[0]};
  }

  lemma AllCopied(pc: PalettedContainer, cells: Cells)
    requires pc.Valid() && CopiedInto(pc, cells, SECTION_SIZE)
    ensures (pc.c.Direct? <==> SentDirectly(cells)) && pc.Cells() == Sent(cells)
  {
    hide StatesOf, Copied, Kept;
    CopyEnds(cells);
    assert cells[..SECTION_SIZE] == cells;
  }

  lemma KeptPlain(cells: Cells)
    ensures Kept(cells, false) == cells
    ensures Kept(Copied(cells, 0), false) == Copied(cells, 0)
  {
  }

  lemma AllFirst(cells: Cells)
    requires forall k | 0 <= k < SECTION_SIZE :: cells[k] == cells[0]
    ensures cells == Uniform(cells[0])
    ensures !SentDirectly(cells) && Sent(cells) == cells
  {
    assert StatesOf(cells) == {cells[0]};
  }

  // ----- the sections of a chunk

  /** What one section sends, as values: its count and the forms of its two containers. */
  datatype Part = Part(count: int, states: Form, biomes: Form)

  /** Go's `Short(n)` in big-endian order. */
  function ShortBytes(n: int): seq<Byte> {
    [n % 0x1_0000 / 256, n % 256]
  }

  function PartBytes(p: Part): seq<Byte> {
    ShortBytes(p.count) + WireBytes(p.states) + WireBytes(p.biomes)
  }

  function PartsBytes(ps: seq<Part>): seq<Byte> {
    if ps == [] then [] else PartBytes(ps[0]) + PartsBytes(ps[1..])
  }

  lemma {:induction false} PartsBytesAppend(ps: seq<Part>, p: Part)
    ensures PartsBytes(ps + [p]) == PartsBytes(ps) + PartBytes(p)
  {
    hide PartBytes;
    if ps == [] {
      assert [] + [p] == [p];
      assert PartsBytes([p]) == PartBytes(p) + PartsBytes([]);
    } else {
      PartsBytesAppend(ps[1..], p);
      assert (ps + [p])[1..] == ps[1..] + [p];
    }
  }

  class SectionWire {
    const BlockCount: int
    const BlockStates: PalettedContainer
    const Biomes: PalettedContainer

    constructor (blockCount: int, blockStates: PalettedContainer, biomes: PalettedContainer)
      ensures BlockCount == blockCount && BlockStates == blockStates && Biomes == biomes
    {
      BlockCount, BlockStates, Biomes := blockCount, blockStates, biomes;
    }

    ghost predicate Valid()
      reads BlockStates, BlockStates.Repr, Biomes, Biomes.Repr
    {
      BlockStates.Valid() && Biomes.Valid()
    }

    /** The section is intact and sends `p`. */
    ghost predicate Sends(p: Part)
      reads BlockStates, BlockStates.Repr, Biomes, Biomes.Repr
    {
      Valid() && Sent() == p
    }

    ghost function Sent(): Part
      reads BlockStates, BlockStates.Repr, Biomes, Biomes.Repr
      requires Valid()
    {
      Part(BlockCount, BlockStates.Form(), Biomes.Form())
    }

    method Size() returns (n: nat)
      requires Valid()
      ensures n == |PartBytes(Sent())|
    {
      hide PalettedContainer.Valid, PalettedContainer.Form, WireBytes;
      var a := BlockStates.Size();
      var b := Biomes.Size();
      n := 2 + a + b;
    }

    method WriteTo(w: ByteSink)
      requires Valid() && w !in BlockStates.Repr && w !in Biomes.Repr
      modifies w
      ensures Valid() && Sent() == old(Sent())
      ensures w.written == old(w.written) + PartBytes(Sent())
    {
      hide PalettedContainer.Valid, PalettedContainer.Form, WireBytes;
      w.Write(ShortBytes(BlockCount));
      BlockStates.WriteTo(w);
      Biomes.WriteTo(w);
    }
  }

  /** The size `NewChunkData` announces for the block data it returns. */
  datatype ChunkData = ChunkData(size: Int32, sections: seq<SectionWire>)

  /** The parts the sections of a chunk should be sent as: counts, states and empty biomes. */
  ghost predicate Describes(p: Part, cells: Cells) {
    && p.count == S.NonAir(cells)
    && WellFormed(p.states) && WellFormed(p.biomes)
    && FormCells(p.states) == Sent(cells) && (p.states.DirectForm? <==> SentDirectly(cells))
    && p.biomes == SingleForm(0)
  }

  ghost function SectionCells(sec: S.Section?): Cells
    reads sec, if sec != null then sec.Objects() else {}
    requires sec != null ==> sec.Valid()
  {
    if sec == null then Uniform(0) else sec.Cells()
  }

  /** The container and count of a section, a missing one being air. */
  method EncodeSection(sec: S.Section?) returns (states: PalettedContainer, bc: int)
    requires sec != null ==> sec.Valid() && sec.Counted()
    ensures states.Valid() && fresh(states) && fresh(states.Repr)
    ensures states.Cells() == Sent(old(SectionCells(sec)))
    ensures states.c.Direct? <==> SentDirectly(old(SectionCells(sec)))
    ensures bc == S.NonAir(old(SectionCells(sec)))
  {
    hide S.Section.Valid, S.Section.Cells, S.NonAir, PalettedContainer.Valid, PalettedContainer.Cells, Uniform, Kept;
    hide Sent, SentDirectly;
    bc := 0;
    if sec == null {
      states := new PalettedContainer(0);
      AirIsEmpty();
    } else {
      states := SectionToWire(sec);
      bc := sec.blockCount;
    }
  }

  method MakeSection(sec: S.Section?, biomes: PalettedContainer) returns (wire: SectionWire)
    requires sec != null ==> sec.Valid() && sec.Counted()
    requires biomes.Valid() && biomes.Form() == SingleForm(0)
    ensures fresh(wire) && wire.Valid() && wire.Biomes == biomes
    ensures fresh(wire.BlockStates.Repr)
    ensures Describes(wire.Sent(), old(SectionCells(sec)))
  {
    hide S.Section.Valid, S.Section.Cells, S.NonAir, PalettedContainer.Valid, PalettedContainer.Cells;
    hide PalettedContainer.Form;
    hide FormCells, WellFormed, WireBytes, Uniform, Kept, Sent, SentDirectly, SectionCells;
    var states, bc := EncodeSection(sec);
    states.FormHoldsCells();
    biomes.FormHoldsCells();
    ghost var sent := Part(bc, states.Form(), biomes.Form());
    wire := new SectionWire(bc, states, biomes);
    assert wire.Sent() == sent;
  }

  lemma AirIsEmpty()
    ensures S.NonAir(Uniform(0)) == 0
    ensures !SentDirectly(Uniform(0)) && Sent(Uniform(0)) == Uniform(0)
  {
    S.NonAirUniform(Uniform(0), 0);
    AllFirst(Uniform(0));
  }

  /**
   Every section of the chunk is encoded in order, a missing one as air, and the
   announced size is the length of what `WriteData` will write.
   */
  method NewChunkData(c: C.Chunk) returns (data: ChunkData, ghost parts: seq<Part>)
    requires c.Valid()
    ensures |data.sections| == |parts| == |old(c.Contents())|
    ensures forall i | 0 <= i < |parts| :: data.sections[i].Sends(parts[i])
    ensures forall i | 0 <= i < |parts| :: Describes(parts[i], old(c.Contents())[i])
    ensures data.size == WrapI32(|PartsBytes(parts)|)
  {
    hide PalettedContainer.Valid, PalettedContainer.Form, SectionWire.Sends, Describes, PartsBytes, PartBytes;
    hide S.NonAir, S.Section.Valid, S.Section.Cells, C.Indexed;
    var numSections := c.Sections.Length;
    var emptyBiomes := EmptyBiomes();
    NoParts();
    var sections: seq<SectionWire>, dataSize := [], 0;
    parts := [];
    for i := 0 to numSections
      invariant |sections| == |parts| == i
      invariant forall k | 0 <= k < i :: sections[k].Sends(parts[k])
      invariant forall k | 0 <= k < i :: Describes(parts[k], old(c.Contents())[k])
      invariant dataSize == |PartsBytes(parts)|
      invariant emptyBiomes.Valid() && emptyBiomes.Form() == SingleForm(0)
    {
      var wire, n, p := SizedSection(c, i, emptyBiomes);
      PartsBytesAppend(parts, p);
      dataSize := dataSize + n;
      sections := sections + [wire];
      parts := parts + [p];
    }
    data := ChunkData(WrapI32(dataSize), sections);
  }

  lemma NoParts()
    ensures PartsBytes([]) == []
  {
  }

  method EmptyBiomes() returns (biomes: PalettedContainer)
    ensures fresh(biomes) && biomes.Valid() && biomes.Form() == SingleForm(0)
  {
    biomes := new PalettedContainer(0);
    assert Uniform(0)[0] == biomes.Cells()[0] == biomes.c.single.Value;
  }

  method SizedSection(c: C.Chunk, i: nat, biomes: PalettedContainer) returns (wire: SectionWire, n: nat, ghost p: Part)
    requires c.Valid() && i < c.Sections.Length
    requires biomes.Valid() && biomes.Form() == SingleForm(0)
    ensures fresh(wire) && wire.Sends(p) && Describes(p, old(c.Contents())[i])
    ensures n == |PartBytes(p)|
  {
    hide PalettedContainer.Valid, PalettedContainer.Form, Describes, PartBytes;
    hide S.NonAir, S.Section.Valid, S.Section.Cells, C.Indexed;
    wire := MakeSection(c.Sections[i], biomes);
    p := wire.Sent();
    n := wire.Size();
  }

  method WriteData(data: ChunkData, w: ByteSink, ghost parts: seq<Part>)
    requires |data.sections| == |parts|
    requires forall i | 0 <= i < |parts| ::
               data.sections[i].Sends(parts[i])
               && w !in data.sections[i].BlockStates.Repr && w !in data.sections[i].Biomes.Repr
    modifies w
    ensures w.written == old(w.written) + PartsBytes(parts)
  {
    hide PalettedContainer.Valid, PalettedContainer.Form, PartsBytes, PartBytes;
    NoParts();
    for i := 0 to |data.sections|
      invariant w.written == old(w.written) + PartsBytes(parts[..i])
      invariant forall k | 0 <= k < |parts| :: data.sections[k].Sends(parts[k])
    {
      PartsBytesAppend(parts[..i], parts[i]);
      assert parts[..i + 1] == parts[..i] + [parts[i]];
      data.sections[i].WriteTo(w);
    }
    assert parts[..|parts|] == parts;
  }

  // ----- reading the block data back

  /** A section as a reader sees it: the announced count and the states. */
  type SectionRead = (int, seq<int>)

  function TakePart(s: seq<Byte>): Option<(SectionRead, seq<Byte>)> {
    if |s| < 2 then None
    else match TakeContainer(s[2..])
      case None => None
      case Some((states, more)) =>
        match TakeContainer(more)
        case None => None
        case Some((_, rest)) => Some(((ShortOf(s[0], s[1]), states), rest))
  }

  function ShortOf(high: Byte, low: Byte): int {
    high as int * 256 + low
  }

  function TakeParts(s: seq<Byte>, n: nat): Option<(seq<SectionRead>, seq<Byte>)>
    decreases n
  {
    if n == 0 then Some(([], s))
    else match TakePart(s)
      case None => None
      case Some((p, more)) =>
        match TakeParts(more, n - 1)
        case None => None
        case Some((ps, rest)) => Some(([p] + ps, rest))
  }

  ghost function ReadOf(p: Part): SectionRead
    requires WellFormed(p.states)
  {
    (p.count, FormCells(p.states))
  }

  lemma AfterHead(head: seq<Byte>, a: seq<Byte>, b: seq<Byte>, tail: seq<Byte>)
    requires |head| == 2
    ensures head + a + b + tail == head + (a + (b + tail))
    ensures (head + (a + (b + tail)))[2..] == a + (b + tail)
  {
  }

  lemma TakePartAt(s: seq<Byte>, head: seq<Byte>, body: seq<Byte>, states: seq<int>, more: seq<Byte>,
                   biomes: seq<int>, rest: seq<Byte>)
    requires |head| == 2 && s == head + body && s[2..] == body
    requires TakeContainer(body) == Some((states, more)) && TakeContainer(more) == Some((biomes, rest))
    ensures TakePart(s) == Some(((ShortOf(head[0], head[1]), states), rest))
  {
    hide TakeContainer, ShortOf;
  }

  lemma ShortReadsBack(n: nat)
    requires n < 0x1_0000
    ensures |ShortBytes(n)| == 2 && ShortOf(ShortBytes(n)[0], ShortBytes(n)[1]) == n
  {
  }

  lemma PartRoundTrip(p: Part, tail: seq<Byte>)
    requires WellFormed(p.states) && WellFormed(p.biomes) && 0 <= p.count < 0x1_0000
    ensures TakePart(PartBytes(p) + tail) == Some((ReadOf(p), tail))
  {
    hide TakeContainer, WireBytes, FormCells, WellFormed, TakePart, ShortBytes, ShortOf;
    var head, states, biomes := ShortBytes(p.count), WireBytes(p.states), WireBytes(p.biomes);
    ShortReadsBack(p.count);
    AfterHead(head, states, biomes, tail);
    ContainerRoundTrip(p.states, biomes + tail);
    ContainerRoundTrip(p.biomes, tail);
    TakePartAt(PartBytes(p) + tail, head, states + (biomes + tail), FormCells(p.states), biomes + tail,
      FormCells(p.biomes), tail);
  }

  ghost function ReadsOf(ps: seq<Part>): (r: seq<SectionRead>)
    requires forall i | 0 <= i < |ps| :: WellFormed(ps[i].states)
    ensures |r| == |ps| && forall i | 0 <= i < |r| :: r[i] == ReadOf(ps[i])
  {
    if ps == [] then [] else [ReadOf(ps[0])] + ReadsOf(ps[1..])
  }

  lemma TakePartsNext(s: seq<Byte>, n: nat, p: SectionRead, more: seq<Byte>, ps: seq<SectionRead>, rest: seq<Byte>)
    requires TakePart(s) == Some((p, more)) && TakeParts(more, n) == Some((ps, rest))
    ensures TakeParts(s, n + 1) == Some(([p] + ps, rest))
  {
    hide TakePart;
  }

  lemma {:induction false} PartsRoundTrip(ps: seq<Part>, tail: seq<Byte>)
    requires forall i | 0 <= i < |ps| ::
               WellFormed(ps[i].states) && WellFormed(ps[i].biomes) && 0 <= ps[i].count < 0x1_0000
    ensures TakeParts(PartsBytes(ps) + tail, |ps|) == Some((ReadsOf(ps), tail))
  {
    hide TakePart, PartBytes, ReadOf, WellFormed;
    if ps == [] {
      assert PartsBytes(ps) + tail == tail;
    } else {
      var rest := PartsBytes(ps[1..]) + tail;
      assert PartsBytes(ps) + tail == PartBytes(ps[0]) + rest;
      PartRoundTrip(ps[0], rest);
      PartsRoundTrip(ps[1..], tail);
      TakePartsNext(PartBytes(ps[0]) + rest, |ps| - 1, ReadOf(ps[0]), rest, ReadsOf(ps[1..]), tail);
    }
  }

  /**
   Reading the announced block data gives every section's count, and its 4096 states if
   and only if they are at most 256 different ones or all fit fifteen bits.
   */
  lemma ChunkSurvives(parts: seq<Part>, contents: seq<Cells>, tail: seq<Byte>)
    requires |parts| == |contents|
    requires forall i | 0 <= i < |parts| :: Describes(parts[i], contents[i])
    ensures TakeParts(PartsBytes(parts) + tail, |parts|).Some?
    ensures var (sections, rest) := TakeParts(PartsBytes(parts) + tail, |parts|).value;
            && rest == tail && |sections| == |contents|
            && forall i | 0 <= i < |contents| ::
                 && sections[i].0 == S.NonAir(contents[i])
                 && (sections[i].1 == contents[i] <==>
                     (|StatesOf(contents[i])| > MAX_PALETTE ==> InWireRange(contents[i])))
  {
    hide FormCells, WellFormed, S.NonAir, PartsBytes, TakeParts, InWireRange, StatesOf, Sent;
    PartsRoundTrip(parts, tail);
    forall i | 0 <= i < |contents|
      ensures ReadOf(parts[i]).1 == contents[i] <==>
              (|StatesOf(contents[i])| > MAX_PALETTE ==> InWireRange(contents[i]))
    {
      SentExactly(contents[i]);
    }
  }
}
