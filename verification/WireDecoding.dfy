/**
 A reader for the container format, written from the format alone, and the proof
 that it recovers all 4096 states from the bytes a container sends.
 */
module WireDecoding {
  import opened Bits
  import opened Wrappers
  import opened VarInts
  import opened DataArrays
  import opened Palettes
  import opened PalettedContainers

  // ----- reading big-endian words

  function JoinLong(b: seq<Byte>): nat {
    if b == [] then 0 else 256 * JoinLong(b[..|b| - 1]) + b[|b| - 1]
  }

  /** The low `n` bytes of `w`, most significant first. */
  function BigEndian(w: nat, n: nat): seq<Byte>
    decreases n
  {
    if n == 0 then [] else BigEndian(Shr(w, 8), n - 1) + [ByteAt(w, 0)]
  }

  lemma {:induction false} ShrShr(w: nat, a: nat, b: nat)
    ensures Shr(Shr(w, a), b) == Shr(w, a + b)
  {
    if a == 0 {
    } else {
      ShrShr(w / 2, a - 1, b);
    }
  }

  lemma {:induction false} LowSplit(w: nat, a: nat, b: nat)
    ensures Low(w, a + b) == Low(w, a) + Shl(Low(Shr(w, a), b), a)
  {
    if a == 0 {
    } else {
      LowSplit(w / 2, a - 1, b);
    }
  }

  lemma ByteOfShifted(w: nat, a: nat, k: nat)
    ensures ByteAt(Shr(w, a), k) == ByteAt(w, a + k)
  {
    ShrShr(w, a, k);
  }

  lemma {:induction false} BigEndianAt(w: nat, n: nat, i: nat)
    requires i < n
    ensures |BigEndian(w, n)| == n && BigEndian(w, n)[i] == ByteAt(w, 8 * (n - 1 - i))
    decreases n
  {
    BigEndianLength(Shr(w, 8), n - 1);
    if i == n - 1 {
    } else {
      BigEndianAt(Shr(w, 8), n - 1, i);
      ByteOfShifted(w, 8, 8 * (n - 2 - i));
    }
  }

  lemma {:induction false} BigEndianLength(w: nat, n: nat)
    ensures |BigEndian(w, n)| == n
    decreases n
  {
    if n == 0 {
    } else {
      BigEndianLength(Shr(w, 8), n - 1);
    }
  }

  /** The bits above the lowest byte, moved up and joined with it. */
  lemma JoinByte(w: nat, k: nat)
    ensures 256 * Low(Shr(w, 8), k) + ByteAt(w, 0) == Low(w, 8 + k)
  {
    hide Shl, Low;
    LowSplit(w, 8, k);
    assert Pow2(8) == 256 && Shr(w, 0) == w;
    ShlIsTimes(Low(Shr(w, 8), k), 8);
  }

  lemma {:induction false} JoinBigEndian(w: nat, n: nat)
    ensures JoinLong(BigEndian(w, n)) == Low(w, 8 * n)
    decreases n
  {
    hide Shl, Shr, ByteAt;
    if n == 0 {
    } else {
      var front := BigEndian(Shr(w, 8), n - 1);
      assert BigEndian(w, n)[..|front|] == front;
      JoinBigEndian(Shr(w, 8), n - 1);
      JoinByte(w, 8 * (n - 1));
    }
  }

  lemma JoinLongBytes(w: nat)
    requires Fits(w, 64)
    ensures JoinLong(LongBytes(w)) == w
  {
    forall i | 0 <= i < 8 ensures |BigEndian(w, 8)| == 8 && LongBytes(w)[i] == BigEndian(w, 8)[i] {
      BigEndianAt(w, 8, i);
    }
    BigEndianLength(w, 8);
    assert LongBytes(w) == BigEndian(w, 8);
    JoinBigEndian(w, 8);
    FitsIffBounded(w, 64);
    LowOfSmall(w, 64);
  }

  // ----- reading a container

  function TakeWords(s: seq<Byte>, n: nat): Option<(seq<nat>, seq<Byte>)> {
    if |s| < 8 * n then None
    else Some((seq(n, k requires 0 <= k < n => JoinLong(s[8 * k..8 * k + 8])), s[8 * n..]))
  }

  function TakeVarInts(s: seq<Byte>, n: nat): (r: Option<(seq<Int32>, seq<Byte>)>)
    ensures r.Some? ==> |r.value.0| == n
  {
    if n == 0 then Some(([], s))
    else match Decode(s)
      case Err(_) => None
      case Ok(v) =>
        match TakeVarInts(s[Consumed(s)..], n - 1)
        case None => None
        case Some((vs, rest)) => Some(([v] + vs, rest))
  }

  /** How many whole entries a word has room for, and how many words 4096 entries take. */
  function EntriesPerWord(bits: nat): (n: nat)
    requires 1 <= bits <= 64
    ensures n >= 1
  {
    64 / bits
  }

  function WordsFor(bits: nat): nat
    requires 1 <= bits <= 64
  {
    (4096 + EntriesPerWord(bits) - 1) / EntriesPerWord(bits)
  }

  /** The 4096 entries: in each word the lowest bits come first, and the bits left over are skipped. */
  function SlotsOf(words: seq<nat>, bits: nat): (s: seq<nat>)
    requires 1 <= bits <= 64 && |words| == WordsFor(bits)
    ensures |s| == 4096
  {
    seq(4096, i requires 0 <= i < 4096 => SlotAt(words, bits, i))
  }

  function SlotAt(words: seq<nat>, bits: nat, i: nat): nat
    requires 1 <= bits <= 64 && |words| == WordsFor(bits) && i < 4096
  {
    words[WordOf(bits, i)] / Pow2(BitOf(bits, i)) % Pow2(bits)
  }

  /** The word that holds an entry, and the bit at which it begins there. */
  function WordOf(bits: nat, i: nat): (w: nat)
    requires 1 <= bits <= 64 && i < 4096
    ensures w < WordsFor(bits)
  {
    WordInRange(bits, 4096, i);
    i / EntriesPerWord(bits)
  }

  function BitOf(bits: nat, i: nat): nat
    requires 1 <= bits <= 64
  {
    i % EntriesPerWord(bits) * bits
  }

  /** The states at the start of `s`, and what follows them. */
  function TakeContainer(s: seq<Byte>): Option<(seq<int>, seq<Byte>)> {
    if s == [] then None
    else
      var bits := s[0];
      if bits == 0 then
        match Decode(s[1..])
        case Err(_) => None
        case Ok(v) => Some((seq(4096, _ => v), s[1..][Consumed(s[1..])..]))
      else if 4 <= bits <= 8 then
        match Decode(s[1..])
        case Err(_) => None
        case Ok(n) => if n < 0 then None else TakeIndirect(s[1..][Consumed(s[1..])..], n, bits)
      else if bits == 15 then
        match TakeWords(s[1..], WordsFor(bits))
        case None => None
        case Some((words, rest)) => Some((SlotsOf(words, bits), rest))
      else None
  }

  function TakeIndirect(s: seq<Byte>, n: nat, bits: nat): Option<(seq<int>, seq<Byte>)>
    requires 4 <= bits <= 8
  {
    match TakeVarInts(s, n)
    case None => None
    case Some((palette, after)) =>
      match TakeWords(after, WordsFor(bits))
      case None => None
      case Some((words, rest)) =>
        var slots := SlotsOf(words, bits);
        if exists i | 0 <= i < 4096 :: slots[i] >= |palette| then None
        else Some((seq(4096, i requires 0 <= i < 4096 => palette[slots[i]]), rest))
  }

  // ----- the round trip

  lemma {:induction false} WordsBytesAt(words: seq<nat>, k: nat)
    requires k < |words|
    ensures WordsBytes(words)[8 * k..8 * k + 8] == LongBytes(words[k])
  {
    var front := words[..|words| - 1];
    var a, b := WordsBytes(front), LongBytes(words[|words| - 1]);
    assert WordsBytes(words) == a + b && |a| == 8 * |front|;
    if k < |front| {
      WordsBytesAt(front, k);
      assert (a + b)[8 * k..8 * k + 8] == a[8 * k..8 * k + 8];
    } else {
      assert (a + b)[|a|..|a| + 8] == b;
    }
  }

  /** Part of a prefix is that part of the whole. */
  lemma PrefixPart(a: seq<Byte>, b: seq<Byte>, i: nat, j: nat)
    requires i <= j <= |a|
    ensures (a + b)[i..j] == a[i..j]
  {
  }

  lemma TakeWord(words: seq<nat>, tail: seq<Byte>, k: nat)
    requires k < |words| && Fits(words[k], 64)
    ensures 8 * k + 8 <= |WordsBytes(words)|
    ensures JoinLong((WordsBytes(words) + tail)[8 * k..8 * k + 8]) == words[k]
  {
    hide JoinLong, WordsBytes, LongBytes, Fits;
    WordsBytesAt(words, k);
    JoinLongBytes(words[k]);
    PrefixPart(WordsBytes(words), tail, 8 * k, 8 * k + 8);
  }

  lemma TakeSentWords(words: seq<nat>, tail: seq<Byte>)
    requires forall k | 0 <= k < |words| :: Fits(words[k], 64)
    ensures TakeWords(WordsBytes(words) + tail, |words|) == Some((words, tail))
  {
    hide JoinLong, WordsBytes, LongBytes, Fits;
    var s := WordsBytes(words) + tail;
    var taken := TakeWords(s, |words|).value;
    assert taken.1 == tail;
    forall k | 0 <= k < |words| ensures taken.0[k] == words[k] {
      assert taken.0[k] == JoinLong(s[8 * k..8 * k + 8]);
      TakeWord(words, tail, k);
    }
    assert taken.0 == words;
  }

  lemma {:induction false} TakeSentVarInts(vs: seq<Int32>, tail: seq<Byte>)
    ensures TakeVarInts(VarIntsBytes(vs) + tail, |vs|) == Some((vs, tail))
  {
    if vs == [] {
      assert VarIntsBytes(vs) + tail == tail;
    } else {
      var rest := VarIntsBytes(vs[1..]) + tail;
      assert VarIntsBytes(vs) + tail == Encode(vs[0]) + rest;
      RoundTrip(vs[0], rest);
      TakeSentVarInts(vs[1..], tail);
      assert [vs[0]] + vs[1..] == vs;
    }
  }

  lemma SlotsAreUnpacked(words: seq<nat>, bits: nat)
    requires Packed(words, bits, SECTION_SIZE)
    ensures SlotsOf(words, bits) == Unpacked(words, bits, SECTION_SIZE)
  {
    hide SlotAt;
    forall i | 0 <= i < SECTION_SIZE
      ensures SlotsOf(words, bits)[i] == Unpacked(words, bits, SECTION_SIZE)[i]
    {
      SlotIsEntry(words, bits, i);
    }
  }

  lemma SlotIsEntry(words: seq<nat>, bits: nat, i: nat)
    requires Packed(words, bits, SECTION_SIZE) && i < SECTION_SIZE
    ensures SlotAt(words, bits, i) == EntryAt(words, bits, SECTION_SIZE, i)
  {
    hide Pow2, Slot;
    WordInRange(bits, SECTION_SIZE, i);
    SlotIs(words[i / PerLong(bits)], bits, i % PerLong(bits));
  }

  lemma IndirectRoundTrip(bits: nat, palette: seq<Int32>, words: seq<nat>, tail: seq<Byte>)
    requires WellFormed(IndirectForm(bits, palette, words))
    ensures TakeIndirect(VarIntsBytes(palette) + WordsBytes(words) + tail, |palette|, bits)
            == Some((FormCells(IndirectForm(bits, palette, words)), tail))
  {
    hide TakeVarInts, TakeWords, SlotsOf, Unpacked, VarIntsBytes, WordsBytes;
    var after := WordsBytes(words) + tail;
    assert VarIntsBytes(palette) + WordsBytes(words) + tail == VarIntsBytes(palette) + after;
    TakeSentVarInts(palette, after);
    TakeSentWords(words, tail);
    SlotsAreUnpacked(words, bits);
  }

  /** The bytes of a container, read by the format alone, give back every cell and stop where it stopped. */
  lemma ContainerRoundTrip(f: Form, tail: seq<Byte>)
    requires WellFormed(f)
    ensures TakeContainer(WireBytes(f) + tail) == Some((FormCells(f), tail))
  {
    hide TakeIndirect, TakeWords, SlotsOf, Unpacked, VarIntsBytes, WordsBytes, Encode, Decode, Consumed, Uniform;
    hide Looked, Packed;
    var s := WireBytes(f) + tail;
    match f {
      case SingleForm(v) =>
        assert s[1..] == Encode(v) + tail;
        RoundTrip(v, tail);
        AllOne(v);
      case IndirectForm(bits, palette, words) =>
        PaletteBound(bits);
        var after := VarIntsBytes(palette) + WordsBytes(words) + tail;
        assert s[1..] == Encode(|palette|) + after;
        RoundTrip(|palette|, after);
        IndirectRoundTrip(bits, palette, words, tail);
      case DirectForm(words) =>
        assert s[1..] == WordsBytes(words) + tail;
        DirectWords(words);
        TakeSentWords(words, tail);
        SlotsAreUnpacked(words, DIRECT_BITS);
    }
  }

  lemma AllOne(v: Int32)
    ensures Uniform(v) == seq(4096, _ => v)
  {
  }

  lemma PaletteBound(bits: nat)
    requires bits <= MAX_INDIRECT_BITS
    ensures Pow2(bits) <= 256
  {
    PowMonotone(bits, MAX_INDIRECT_BITS);
    assert Pow2(8) == 256;
  }

  lemma DirectWords(words: seq<nat>)
    requires Packed(words, DIRECT_BITS, SECTION_SIZE)
    ensures |words| == LongCount(DIRECT_BITS, SECTION_SIZE)
    ensures forall k | 0 <= k < |words| :: Fits(words[k], 64)
  {
  }
}
