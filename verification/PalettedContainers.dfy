/**
 The adaptive container as its users see it: 4096 cells under reads and writes,
 and the bytes and announced size of whichever form it is in.
 */
module PalettedContainers {
  import opened Bits
  import opened Wrappers
  import opened VarInts
  import opened DataArrays
  import opened Palettes

  // ----- the bytes of each form

  datatype Form =
    | SingleForm(value: Int32)
    | IndirectForm(bits: nat, palette: seq<Int32>, words: seq<nat>)
    | DirectForm(words: seq<nat>)

  function FormBits(f: Form): nat {
    match f
    case SingleForm(_) => 0
    case IndirectForm(bits, _, _) => bits
    case DirectForm(_) => DIRECT_BITS
  }

  function FormBytes(f: Form): seq<Byte> {
    match f
    case SingleForm(v) => Encode(v)
    case IndirectForm(_, palette, words) => Encode(WrapI32(|palette|)) + VarIntsBytes(palette) + WordsBytes(words)
    case DirectForm(words) => WordsBytes(words)
  }

  ghost predicate WellFormed(f: Form) {
    match f
    case SingleForm(_) => true
    case IndirectForm(bits, palette, words) =>
      && MIN_INDIRECT_BITS <= bits <= MAX_INDIRECT_BITS
      && 1 <= |palette| <= Pow2(bits)
      && Packed(words, bits, SECTION_SIZE)
      && Indices(Unpacked(words, bits, SECTION_SIZE), palette)
    case DirectForm(words) =>
      && Packed(words, DIRECT_BITS, SECTION_SIZE)
      && forall i | 0 <= i < SECTION_SIZE :: Unpacked(words, DIRECT_BITS, SECTION_SIZE)[i] < DIRECT_RANGE
  }

  ghost function FormCells(f: Form): Cells
    requires WellFormed(f)
  {
    match f
    case SingleForm(v) => Uniform(v)
    case IndirectForm(bits, palette, words) => Looked(Unpacked(words, bits, SECTION_SIZE), palette)
    case DirectForm(words) => Unpacked(words, DIRECT_BITS, SECTION_SIZE)
  }

  /** What the container sends: the entry width, then its form. */
  function WireBytes(f: Form): seq<Byte> {
    [WidthByte(FormBits(f))] + FormBytes(f)
  }

  /** Go's `UnsignedByte(bits)`. */
  function WidthByte(bits: nat): Byte {
    bits % 256
  }

  /** The entry width for `n` distinct states: none, the least from four to eight bits, or fifteen. */
  function WidthFor(n: nat): nat {
    if n <= 1 then 0
    else if n <= 16 then 4
    else if n <= 32 then 5
    else if n <= 64 then 6
    else if n <= 128 then 7
    else if n <= 256 then 8
    else 15
  }

  lemma NarrowWidth(bits: nat, n: nat)
    requires MIN_INDIRECT_BITS <= bits <= MAX_INDIRECT_BITS && 2 <= n <= Pow2(bits)
    requires bits > MIN_INDIRECT_BITS ==> n > Pow2(bits - 1)
    ensures WidthFor(n) == bits
  {
    assert Pow2(4) == 16 && Pow2(5) == 32 && Pow2(6) == 64 && Pow2(7) == 128 && Pow2(8) == 256;
  }

  // ----- the container

  datatype Container =
    | Single(single: SingleValueContainer)
    | Indirect(indirect: IndirectContainer)
    | Direct(direct: DirectContainer)

  class PalettedContainer {
    var c: Container
    ghost var Repr: set<object>

    ghost predicate Valid()
      reads this, Repr
      ensures Valid() ==> this in Repr
    {
      && this in Repr
      && match c
         case Single(s) => s in Repr
         case Indirect(i) => i in Repr && {i.Data, i.Data.Data} <= Repr && i.Valid()
         case Direct(d) => {d, d.Data, d.Data.Data} <= Repr && d.Valid()
    }

    ghost function Cells(): Cells
      reads this, Repr
      requires Valid()
    {
      match c
      case Single(s) => Uniform(s.Value)
      case Indirect(i) => i.Cells()
      case Direct(d) => d.Cells()
    }

    /** The states a palette knows; the direct form has none. */
    ghost function Known(): set<Int32>
      reads this, Repr
      requires Valid()
    {
      match c
      case Single(s) => {s.Value}
      case Indirect(i) => StatesOf(i.Palette)
      case Direct(_) => {}
    }

    /** A palette knows between one and 256 states. */
    lemma KnownBound()
      requires Valid() && !c.Direct?
      ensures 1 <= |Known()| <= MAX_PALETTE
    {
      if c.Indirect? {
        DistinctStates(c.indirect.Palette);
        FullPalette(c.indirect.Data.BitsPerEntry);
      }
    }

    /** A palette of at least two states, with indices no wider than it needs. */
    ghost predicate Narrow()
      reads this, Repr
      requires Valid()
    {
      c.Indirect? ==> c.indirect.Narrow() && |c.indirect.Palette| >= 2
    }

    lemma WidthIs()
      requires Valid() && Narrow() && !c.Direct?
      ensures FormBits(Form()) == WidthFor(|Known()|)
    {
      if c.Indirect? {
        DistinctStates(c.indirect.Palette);
        NarrowWidth(c.indirect.Data.BitsPerEntry, |c.indirect.Palette|);
      }
    }

    /** Writing the state leaves the container in the direct form. */
    ghost predicate GoesDirect(value: Int32)
      reads this, Repr
      requires Valid()
    {
      c.Direct? || |Known() + {value}| > MAX_PALETTE
    }

    ghost function Form(): Form
      reads this, Repr
      requires Valid()
    {
      match c
      case Single(s) => SingleForm(s.Value)
      case Indirect(i) => IndirectForm(i.Data.BitsPerEntry, i.Palette, i.Data.Data[..])
      case Direct(d) => DirectForm(d.Data.Data[..])
    }

    lemma FormHoldsCells()
      requires Valid()
      ensures WellFormed(Form()) && FormCells(Form()) == Cells()
      ensures Form().DirectForm? == c.Direct?
    {
      match c {
        case Single(_) =>
        case Indirect(i) =>
          assert i.Data.Valid() && i.Data.Entries() == Unpacked(i.Data.Data[..], i.Data.BitsPerEntry, SECTION_SIZE);
          assert WellFormed(Form());
        case Direct(d) =>
          assert d.Data.Valid() && d.Data.Entries() == Unpacked(d.Data.Data[..], DIRECT_BITS, SECTION_SIZE);
          assert WellFormed(Form());
      }
    }

    constructor (value: Int32)
      ensures Valid() && fresh(Repr)
      ensures c.Single? && Cells() == Uniform(value) && Known() == {value} && Narrow()
    {
      var s := new SingleValueContainer(value);
      c := Single(s);
      Repr := {this, s};
    }

    method Get(index: nat) returns (v: Int32)
      requires Valid() && index < SECTION_SIZE
      ensures v == Cells()[index]
    {
      match c {
        case Single(s) => v := s.Value;
        case Indirect(i) => v := i.Get(index);
        case Direct(d) => v := d.Get(index);
      }
    }

    /**
     One write. The direct form is reached exactly when the state is one more than the
     256 a palette can know, and is kept from then on.
     */
    method Set(index: int, value: Int32)
      requires Valid()
      modifies Repr
      ensures Valid() && fresh(Repr - old(Repr))
      ensures Cells() == Written(old(Cells()), index, value, old(GoesDirect(value)))
      ensures c.Direct? == old(GoesDirect(value))
      ensures !c.Direct? ==> Known() == old(Known()) + {value}
      ensures old(Narrow()) ==> Narrow()
    {
      hide IndirectContainer.Valid, IndirectContainer.Cells, DirectContainer.Valid, DirectContainer.Cells, Truncated;
      hide Uniform;
      hide StatesOf, PalettedContainer.GoesDirect;
      match c {
        case Single(s) =>
          SingleGoesOn(value);
          var next := s.Set(index, value);
          if next.None? {
            UniformRewrite(value, index);
          } else {
            c := Indirect(next.value);
            Repr := Repr + {next.value, next.value.Data, next.value.Data.Data};
          }
        case Indirect(i) =>
          IndirectGoesOn(value);
          var next := i.Set(index, value);
          if next.Some? {
            c := Direct(next.value);
            Repr := Repr + {next.value, next.value.Data, next.value.Data.Data};
          } else {
            Repr := Repr + {i.Data, i.Data.Data};
          }
        case Direct(d) =>
          DirectGoesOn(value);
          d.AlreadyTruncated();
          d.Set(index, value);
      }
    }

    lemma SingleGoesOn(value: Int32)
      requires Valid() && c.Single?
      ensures !GoesDirect(value) && Known() == {c.single.Value}
      ensures StatesOf([c.single.Value, value]) == {c.single.Value} + {value}
    {
    }

    lemma IndirectGoesOn(value: Int32)
      requires Valid() && c.Indirect?
      ensures Known() == StatesOf(c.indirect.Palette)
      ensures GoesDirect(value) <==> |c.indirect.Palette| == MAX_PALETTE && value !in c.indirect.Palette
      ensures value in c.indirect.Palette ==> Known() + {value} == Known()
      ensures StatesOf(c.indirect.Palette + [value]) == Known() + {value}
    {
      KnownBound();
      DistinctStates(c.indirect.Palette);
      if value in c.indirect.Palette { assert Known() + {value} == Known(); }
      var longer := c.indirect.Palette + [value];
      OneMoreState(longer, |c.indirect.Palette|);
      assert longer[..|longer| - 1] == c.indirect.Palette && longer[..|longer|] == longer;
    }

    lemma DirectGoesOn(value: Int32)
      requires Valid() && c.Direct?
      ensures GoesDirect(value)
    {
    }

    /** The announced size is exactly the number of bytes sent. */
    method Size() returns (n: nat)
      requires Valid()
      ensures n == |WireBytes(Form())|
    {
      hide IndirectContainer.Valid, DirectContainer.Valid, Encode, VarIntsBytes;
      match c {
        case Single(s) => n := Len(s.Value);
        case Indirect(i) => n := i.Size();
        case Direct(d) => n := d.Size();
      }
      n := 1 + n;
    }

    method WriteTo(w: ByteSink)
      requires Valid() && w !in Repr
      modifies w
      ensures Valid() && Form() == old(Form())
      ensures w.written == old(w.written) + WireBytes(Form())
    {
      hide IndirectContainer.Valid, DirectContainer.Valid, Encode, VarIntsBytes, WordsBytes;
      match c {
        case Single(s) =>
          w.Write([0]);
          VarInts.WriteTo(s.Value, w);
        case Indirect(i) =>
          w.Write([WidthByte(i.Data.BitsPerEntry)]);
          i.WriteTo(w);
        case Direct(d) =>
          w.Write([DIRECT_BITS]);
          d.Data.WriteTo(w);
      }
    }
  }

  lemma UniformRewrite(value: Int32, index: int)
    ensures Update(Uniform(value), index, value) == Uniform(value)
  {
  }
}
