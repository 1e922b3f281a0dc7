/**
 Fixed-width entries packed into 64-bit words, lowest bits first, no entry
 straddling two words.
 */
module DataArrays {
  import opened Bits
  import opened VarInts

  function PerLong(bits: nat): (n: nat)
    requires 1 <= bits <= 64
    ensures n >= 1
  {
    64 / bits
  }

  function LongCount(bits: nat, size: nat): nat
    requires 1 <= bits <= 64
  {
    (size + PerLong(bits) - 1) / PerLong(bits)
  }

  /** Where slot `slot` of a word begins. */
  function BitIndex(bits: nat, slot: nat): nat {
    slot * bits
  }

  /** The entry in slot `slot` of one word. */
  function Slot(word: nat, bits: nat, slot: nat): nat {
    And(Shr(word, BitIndex(bits, slot)), Mask(bits))
  }

  /** The word after writing `value` into slot `slot`, on 64-bit words. */
  function WithSlot(word: nat, bits: nat, slot: nat, value: nat): nat {
    var at := BitIndex(bits, slot);
    Or(AndNot(word, Low(Shl(Mask(bits), at), 64)), Low(Shl(And(value, Mask(bits)), at), 64))
  }

  // ----- laws of one word

  lemma SlotsApart(a: nat, b: nat, bits: nat)
    requires a < b
    ensures BitIndex(bits, a) + bits <= BitIndex(bits, b)
  {
    assert (b - a - 1) * bits >= 0;
  }

  lemma SlotBit(word: nat, bits: nat, slot: nat, i: nat)
    ensures Bit(Slot(word, bits, slot), i) == (i < bits && Bit(word, i + BitIndex(bits, slot)))
  {
    AndBit(Shr(word, BitIndex(bits, slot)), Mask(bits), i);
    ShrBit(word, BitIndex(bits, slot), i);
    MaskBit(bits, i);
  }

  /** A slot is a digit of the word to base 2^bits, the lowest digit first. */
  lemma SlotIs(word: nat, bits: nat, slot: nat)
    ensures Slot(word, bits, slot) == word / Pow2(slot * bits) % Pow2(bits)
  {
    hide And, Shr, Mask, Pow2, Low;
    AndMask(Shr(word, slot * bits), bits);
    LowIsMod(word, slot * bits);
    LowIsMod(Shr(word, slot * bits), bits);
  }

  lemma WithSlotBit(word: nat, bits: nat, slot: nat, value: nat, i: nat)
    requires BitIndex(bits, slot) + bits <= 64
    ensures var at := BitIndex(bits, slot);
            Bit(WithSlot(word, bits, slot, value), i)
            == if at <= i < at + bits then Bit(value, i - at) else Bit(word, i)
  {
    hide BitIndex;
    var at := BitIndex(bits, slot);
    OrBit(AndNot(word, Low(Shl(Mask(bits), at), 64)), Low(Shl(And(value, Mask(bits)), at), 64), i);
    AndNotBit(word, Low(Shl(Mask(bits), at), 64), i);
    LowBit(Shl(Mask(bits), at), 64, i);
    ShlBit(Mask(bits), at, i);
    LowBit(Shl(And(value, Mask(bits)), at), 64, i);
    ShlBit(And(value, Mask(bits)), at, i);
    if i >= at {
      MaskBit(bits, i - at);
      AndBit(value, Mask(bits), i - at);
    }
  }

  /** A write is read back, truncated to the entry width, from its own slot. */
  lemma OwnSlot(word: nat, bits: nat, slot: nat, value: nat)
    requires BitIndex(bits, slot) + bits <= 64
    ensures Slot(WithSlot(word, bits, slot, value), bits, slot) == Low(value, bits)
  {
    hide BitIndex, Slot, WithSlot, Low;
    var w := WithSlot(word, bits, slot, value);
    forall i: nat ensures Bit(Slot(w, bits, slot), i) == Bit(Low(value, bits), i) {
      SlotBit(w, bits, slot, i);
      LowBit(value, bits, i);
      WithSlotBit(word, bits, slot, value, i + BitIndex(bits, slot));
    }
    Extensional(Slot(w, bits, slot), Low(value, bits));
  }

  /** A write leaves every other slot of its word alone. */
  lemma OtherSlot(word: nat, bits: nat, slot: nat, value: nat, other: nat)
    requires BitIndex(bits, slot) + bits <= 64 && other != slot
    ensures Slot(WithSlot(word, bits, slot, value), bits, other) == Slot(word, bits, other)
  {
    hide BitIndex, Slot, WithSlot;
    var w := WithSlot(word, bits, slot, value);
    if slot < other { SlotsApart(slot, other, bits); } else { SlotsApart(other, slot, bits); }
    forall i: nat ensures Bit(Slot(w, bits, other), i) == Bit(Slot(word, bits, other), i) {
      SlotBit(w, bits, other, i);
      SlotBit(word, bits, other, i);
      WithSlotBit(word, bits, slot, value, i + BitIndex(bits, other));
    }
    Extensional(Slot(w, bits, other), Slot(word, bits, other));
  }

  lemma WithSlotFits(word: nat, bits: nat, slot: nat, value: nat)
    requires BitIndex(bits, slot) + bits <= 64 && Fits(word, 64)
    ensures Fits(WithSlot(word, bits, slot, value), 64)
  {
    hide BitIndex, WithSlot;
    forall i: nat | i >= 64 ensures !Bit(WithSlot(word, bits, slot, value), i) {
      WithSlotBit(word, bits, slot, value, i);
    }
  }

  lemma SlotInWord(bits: nat, index: nat)
    requires 1 <= bits <= 64
    ensures BitIndex(bits, index % PerLong(bits)) + bits <= 64
  {
    var n := PerLong(bits);
    SlotsApart(index % n, n, bits);
    DivModIdentity(64, bits);
  }

  lemma TimesMonotone(a: int, b: int, n: int)
    requires n > 0
    ensures a <= b ==> a * n <= b * n
  {
    if a <= b { assert (b - a) * n >= 0; }
  }

  lemma WordInRange(bits: nat, size: nat, index: nat)
    requires 1 <= bits <= 64 && index < size
    ensures index / PerLong(bits) < LongCount(bits, size)
  {
    var n := PerLong(bits);
    DivModIdentity(index, n);
    DivModIdentity(size + n - 1, n);
    TimesMonotone(LongCount(bits, size), index / n, n);
  }

  // ----- entries of a whole array

  ghost predicate Packed(words: seq<nat>, bits: nat, size: nat) {
    && 1 <= bits <= 64
    && |words| == LongCount(bits, size)
    && forall k | 0 <= k < |words| :: Fits(words[k], 64)
  }

  function EntryAt(words: seq<nat>, bits: nat, size: nat, index: nat): nat
    requires Packed(words, bits, size) && index < size
  {
    WordInRange(bits, size, index);
    Slot(words[index / PerLong(bits)], bits, index % PerLong(bits))
  }

  ghost function Unpacked(words: seq<nat>, bits: nat, size: nat): (s: seq<nat>)
    requires Packed(words, bits, size)
    ensures |s| == size
  {
    seq(size, i requires 0 <= i < size => EntryAt(words, bits, size, i))
  }

  /** The word and slot of an index determine it. */
  lemma SamePlace(i: nat, j: nat, n: nat)
    requires n > 0 && i / n == j / n && i % n == j % n
    ensures i == j
  {
    DivModIdentity(i, n);
    DivModIdentity(j, n);
  }

  /** A packed write changes exactly its own entry. */
  lemma PackedWrite(words: seq<nat>, bits: nat, size: nat, index: nat, value: nat)
    requires Packed(words, bits, size) && index < size
    ensures index / PerLong(bits) < |words|
    ensures var k := index / PerLong(bits);
            var after := words[k := WithSlot(words[k], bits, index % PerLong(bits), value)];
            && Packed(after, bits, size)
            && Unpacked(after, bits, size) == Unpacked(words, bits, size)[index := Low(value, bits)]
  {
    hide PerLong, LongCount, Slot, WithSlot, Low, BitIndex, Fits;
    WordInRange(bits, size, index);
    SlotInWord(bits, index);
    var n := PerLong(bits);
    var k, slot := index / n, index % n;
    var after := words[k := WithSlot(words[k], bits, slot, value)];
    WithSlotFits(words[k], bits, slot, value);
    forall i | 0 <= i < size
      ensures EntryAt(after, bits, size, i) == if i == index then Low(value, bits) else EntryAt(words, bits, size, i)
    {
      WordInRange(bits, size, i);
      if i == index {
        OwnSlot(words[k], bits, slot, value);
      } else if i / n == k {
        if i % n == slot { SamePlace(i, index, n); }
        OtherSlot(words[k], bits, slot, value, i % n);
      }
    }
  }

  lemma ZeroWord(bits: nat, slot: nat)
    ensures Slot(0, bits, slot) == 0 && Fits(0, 64)
  {
    forall i: nat ensures !Bit(0, i) { ZeroBit(i); }
    forall i: nat ensures Bit(Slot(0, bits, slot), i) == Bit(0, i) {
      SlotBit(0, bits, slot, i);
    }
    Extensional(Slot(0, bits, slot), 0);
  }

  lemma ZeroWords(words: seq<nat>, bits: nat, size: nat)
    requires 1 <= bits <= 64 && |words| == LongCount(bits, size)
    requires forall k | 0 <= k < |words| :: words[k] == 0
    ensures Packed(words, bits, size)
    ensures Unpacked(words, bits, size) == seq(size, _ => 0)
  {
    hide PerLong, LongCount, Slot, Fits;
    ZeroWord(bits, 0);
    assert Packed(words, bits, size);
    forall i | 0 <= i < size ensures EntryAt(words, bits, size, i) == 0 {
      WordInRange(bits, size, i);
      ZeroWord(bits, i % PerLong(bits));
    }
  }

  // ----- the wire form

  function LongBytes(w: nat): seq<Byte> {
    [ByteAt(w, 56), ByteAt(w, 48), ByteAt(w, 40), ByteAt(w, 32),
     ByteAt(w, 24), ByteAt(w, 16), ByteAt(w, 8), ByteAt(w, 0)]
  }

  function WordsBytes(words: seq<nat>): (b: seq<Byte>)
    ensures |b| == 8 * |words|
  {
    if words == [] then [] else WordsBytes(words[..|words| - 1]) + LongBytes(words[|words| - 1])
  }

  // ----- the implementation

  lemma MaskIsShift(bits: nat)
    ensures Shl(1, bits) - 1 == Mask(bits)
  {
    MaskValue(bits);
    ShlIsTimes(1, bits);
  }

  lemma PackedBounds(words: seq<nat>, bits: nat, size: nat)
    requires Packed(words, bits, size)
    ensures 1 <= bits <= 64
  {
  }

  class DataArray {
    const Data: array<nat>
    const BitsPerEntry: nat
    const EntryMask: nat
    const Size: nat

    ghost predicate Valid()
      reads Data
    {
      Packed(Data[..], BitsPerEntry, Size) && EntryMask == Mask(BitsPerEntry)
    }

    ghost function Entries(): (s: seq<nat>)
      reads Data
      requires Valid()
      ensures |s| == Size
    {
      Unpacked(Data[..], BitsPerEntry, Size)
    }

    constructor (bitsPerEntry: nat, size: nat)
      requires 1 <= bitsPerEntry <= 64
      ensures Valid() && fresh(Data)
      ensures BitsPerEntry == bitsPerEntry && Size == size
      ensures Entries() == seq(size, _ => 0)
    {
      var valuesPerLong := 64 / bitsPerEntry;
      var longCount := (size + valuesPerLong - 1) / valuesPerLong;
      MaskIsShift(bitsPerEntry);
      Data := new nat[longCount](_ => 0);
      BitsPerEntry := bitsPerEntry;
      EntryMask := Shl(1, bitsPerEntry) - 1;
      Size := size;
      new;
      ZeroWords(Data[..], bitsPerEntry, size);
    }

    /** Writes the low bits of `value` into one entry; out of range it does nothing. */
    method Set(index: int, value: int)
      requires Valid()
      modifies Data
      ensures Valid()
      ensures Entries() == if 0 <= index < Size then old(Entries())[index := Low(ToU64(value), BitsPerEntry)]
                           else old(Entries())
    {
      hide And, Or, AndNot, Shl, Shr, Low, Mask, EntryAt, Unpacked, Packed, ToU64;
      if index < 0 || index >= Size {
        return;
      }
      PackedBounds(Data[..], BitsPerEntry, Size);
      var valuesPerLong := 64 / BitsPerEntry;
      var cellIndex := index / valuesPerLong;
      var bitIndex := (index % valuesPerLong) * BitsPerEntry;
      ghost var words := Data[..];
      PackedWrite(words, BitsPerEntry, Size, index, ToU64(value));
      Data[cellIndex] := Or(AndNot(Data[cellIndex], Low(Shl(EntryMask, bitIndex), 64)),
                            Low(Shl(And(ToU64(value), EntryMask), bitIndex), 64));
      assert Data[..]
             == words[cellIndex := WithSlot(words[cellIndex], BitsPerEntry, index % valuesPerLong, ToU64(value))];
    }

    method Get(index: int) returns (v: nat)
      requires Valid()
      ensures v == if 0 <= index < Size then Entries()[index] else 0
    {
      if index < 0 || index >= Size {
        return 0;
      }
      var valuesPerLong := 64 / BitsPerEntry;
      var cellIndex := index / valuesPerLong;
      var bitIndex := (index % valuesPerLong) * BitsPerEntry;
      WordInRange(BitsPerEntry, Size, index);
      return And(Shr(Data[cellIndex], bitIndex), EntryMask);
    }

    method WriteTo(w: ByteSink)
      modifies w
      ensures w.written == old(w.written) + WordsBytes(Data[..])
    {
      for i := 0 to Data.Length
        invariant Data[..] == old(Data[..])
        invariant w.written == old(w.written) + WordsBytes(Data[..i])
      {
        assert Data[..i + 1][..i] == Data[..i];
        w.Write(LongBytes(Data[i]));
      }
      assert Data[..Data.Length] == Data[..];
    }
  }
}
