/**
 The quantised low-precision vector of the wire protocol: three 15-bit fractions
 and a common scale. Coordinates are reals; rounding of floating-point arithmetic
 is not modelled.
 */
module LpVec3s {
  import opened Bits
  import opened Wrappers
  import opened VarInts

  const MAX_QUANTIZED: real := 32766.0
  const CUTOFF: real := 3.051944088384301e-5

  datatype Vec3 = Vec3(x: real, y: real, z: real)

  function Abs(x: real): (a: real)
    ensures a >= 0.0 && a >= x && a >= -x
  {
    if x < 0.0 then -x else x
  }

  function Max(a: real, b: real): (m: real)
    ensures m >= a && m >= b
  {
    if a < b then b else a
  }

  function Largest(v: Vec3): (m: real)
    ensures m >= Abs(v.x) && m >= Abs(v.y) && m >= Abs(v.z)
  {
    Max(Abs(v.x), Max(Abs(v.y), Abs(v.z)))
  }

  /** Rounding half away from zero, of a non-negative real. */
  function Round(x: real): (n: nat)
    requires x >= 0.0
    ensures n as real - 0.5 <= x < n as real + 0.5
  {
    (x + 0.5).Floor
  }

  /** The fraction `t` in [-1, 1] as a 15-bit number. */
  function Pack(t: real): (n: nat)
    requires -1.0 <= t <= 1.0
    ensures n <= 32766
  {
    Round((t * 0.5 + 0.5) * MAX_QUANTIZED)
  }

  function Unpack(value: nat): real {
    var v := And(value, 0x7FFF) as real;
    (if v > MAX_QUANTIZED then MAX_QUANTIZED else v) * 2.0 / MAX_QUANTIZED - 1.0
  }

  predicate Tiny(v: Vec3) {
    Largest(v) < CUTOFF
  }

  /** The least whole number not below any coordinate's magnitude. */
  function Scale(v: Vec3): (s: nat)
    ensures s as real >= Largest(v)
    ensures s as real < Largest(v) + 1.0
    ensures !Tiny(v) ==> s >= 1
  {
    var i := Largest(v).Floor;
    if Largest(v) > i as real then i + 1 else i
  }

  predicate NeedsContinuation(scale: nat) {
    And(scale, 3) != scale
  }

  function PackedScale(scale: nat): nat {
    if NeedsContinuation(scale) then Or(And(scale, 3), 4) else scale
  }

  function Word(x: nat, y: nat, z: nat, packedScale: nat): nat {
    Or(Or(Or(Shl(z, 33), Shl(y, 18)), Shl(x, 3)), packedScale)
  }

  function Fraction(c: real, v: Vec3): (t: real)
    requires !Tiny(v) && -Largest(v) <= c <= Largest(v)
    ensures -1.0 <= t <= 1.0
  {
    FractionInRange(c, Scale(v) as real);
    c / Scale(v) as real
  }

  lemma FractionInRange(c: real, s: real)
    requires s > 0.0 && -s <= c <= s
    ensures -1.0 <= c / s <= 1.0 && c / s * s == c
  {
  }

  function VectorWord(v: Vec3): nat
    requires !Tiny(v)
  {
    Word(Pack(Fraction(v.x, v)), Pack(Fraction(v.y, v)), Pack(Fraction(v.z, v)), PackedScale(Scale(v)))
  }

  /** The low two bytes first, then the upper four, most significant first. */
  function WordBytes(w: nat): seq<Byte> {
    [ByteAt(w, 0), ByteAt(w, 8), ByteAt(w, 40), ByteAt(w, 32), ByteAt(w, 24), ByteAt(w, 16)]
  }

  function EncodeVec(v: Vec3): seq<Byte> {
    if Tiny(v) then [0]
    else WordBytes(VectorWord(v))
         + (if NeedsContinuation(Scale(v)) then Encode(WrapI32(Shr(Scale(v), 2))) else [])
  }

  // ----- decoding

  function BigEndian(b: seq<Byte>): nat
    requires |b| == 4
  {
    Or(Or(Or(b[3], Shl(b[2], 8)), Shl(b[1], 16)), Shl(b[0], 24))
  }

  function JoinBytes(b: seq<Byte>): nat
    requires |b| == 6
  {
    Or(Or(Shl(BigEndian(b[2..]), 16), Shl(b[1], 8)), b[0])
  }

  /** Go's `uint64(x)` of a 32-bit number: sign-extended to 64 bits. */
  function SignExtend(x: Int32): nat {
    if x < 0 then x + TWO32 * TWO32 else x
  }

  function DecodedScale(b: Byte, rest: Int32): nat {
    if And(b, 4) == 4 then Or(And(b, 3), Low(Shl(SignExtend(rest), 2), 64)) else And(b, 3)
  }

  function VecOf(w: nat, scale: nat): Vec3 {
    Vec3(Unpack(Shr(w, 3)) * scale as real, Unpack(Shr(w, 18)) * scale as real, Unpack(Shr(w, 33)) * scale as real)
  }

  /** The vector at the start of `s`, and how many bytes it took. */
  function DecodeVec(s: seq<Byte>): Result<(Vec3, nat), ReadError> {
    if s == [] then Err(Eof)
    else if s[0] == 0 then Ok((Vec3(0.0, 0.0, 0.0), 1))
    else if |s| < 6 then Err(Eof)
    else if And(s[0], 4) == 4 then
      match Decode(s[6..])
      case Err(e) => Err(e)
      case Ok(rest) => Ok((VecOf(JoinBytes(s[..6]), DecodedScale(s[0], rest)), 6 + Consumed(s[6..])))
    else Ok((VecOf(JoinBytes(s[..6]), DecodedScale(s[0], 0)), 6))
  }

  // ----- the packed fields do not overlap

  lemma SmallFits(x: nat, k: nat)
    requires x < Pow2(k)
    ensures Fits(x, k)
  {
    FitsIffBounded(x, k);
  }

  lemma WordBit(x: nat, y: nat, z: nat, ps: nat, i: nat)
    requires Fits(x, 15) && Fits(y, 15) && Fits(z, 15) && Fits(ps, 3)
    ensures Bit(Word(x, y, z, ps), i) ==
            if i < 3 then Bit(ps, i) else if i < 18 then Bit(x, i - 3)
            else if i < 33 then Bit(y, i - 18) else i < 48 && Bit(z, i - 33)
  {
    OrBit(Or(Or(Shl(z, 33), Shl(y, 18)), Shl(x, 3)), ps, i);
    OrBit(Or(Shl(z, 33), Shl(y, 18)), Shl(x, 3), i);
    OrBit(Shl(z, 33), Shl(y, 18), i);
    ShlBit(z, 33, i);
    ShlBit(y, 18, i);
    ShlBit(x, 3, i);
  }

  lemma FieldAt(w: nat, off: nat, f: nat)
    requires Fits(f, 15)
    requires forall i: nat | i < 15 :: Bit(w, i + off) == Bit(f, i)
    ensures And(Shr(w, off), 0x7FFF) == f
  {
    MaskValue(15);
    assert Pow2(15) == 0x8000;
    forall i: nat ensures Bit(And(Shr(w, off), Mask(15)), i) == Bit(f, i) {
      AndBit(Shr(w, off), Mask(15), i);
      MaskBit(15, i);
      ShrBit(w, off, i);
    }
    Extensional(And(Shr(w, off), Mask(15)), f);
  }

  /** Each field of the word is read back untouched by the others, and the word is 48 bits. */
  lemma FieldsRoundTrip(x: nat, y: nat, z: nat, ps: nat)
    requires x < 0x8000 && y < 0x8000 && z < 0x8000 && ps < 8
    ensures var w := Word(x, y, z, ps);
            && And(Shr(w, 3), 0x7FFF) == x && And(Shr(w, 18), 0x7FFF) == y && And(Shr(w, 33), 0x7FFF) == z
            && Low(w, 3) == ps && Fits(w, 48)
  {
    var w := Word(x, y, z, ps);
    assert Pow2(15) == 0x8000 && Pow2(3) == 8;
    SmallFits(x, 15);
    SmallFits(y, 15);
    SmallFits(z, 15);
    SmallFits(ps, 3);
    forall i: nat
      ensures Bit(w, i) == if i < 3 then Bit(ps, i) else if i < 18 then Bit(x, i - 3)
                           else if i < 33 then Bit(y, i - 18) else i < 48 && Bit(z, i - 33)
    {
      WordBit(x, y, z, ps, i);
    }
    FieldAt(w, 3, x);
    FieldAt(w, 18, y);
    FieldAt(w, 33, z);
    forall i: nat ensures Bit(Low(w, 3), i) == Bit(ps, i) { LowBit(w, 3, i); }
    Extensional(Low(w, 3), ps);
  }

  /** The six bytes hold the whole word. */
  lemma BytesRoundTrip(w: nat)
    requires Fits(w, 48)
    ensures JoinBytes(WordBytes(w)) == w
  {
    var b := WordBytes(w);
    var hi := b[2..];
    forall i: nat ensures Bit(JoinBytes(b), i) == Bit(w, i) {
      OrBit(Or(Shl(BigEndian(hi), 16), Shl(b[1], 8)), b[0], i);
      OrBit(Shl(BigEndian(hi), 16), Shl(b[1], 8), i);
      ShlBit(BigEndian(hi), 16, i);
      ShlBit(b[1], 8, i);
      ByteBit(w, 0, i);
      if i >= 8 { ByteBit(w, 8, i - 8); }
      if i >= 16 { BigEndianBit(w, i - 16); }
    }
    Extensional(JoinBytes(b), w);
  }

  lemma BigEndianBit(w: nat, i: nat)
    ensures Bit(BigEndian([ByteAt(w, 40), ByteAt(w, 32), ByteAt(w, 24), ByteAt(w, 16)]), i)
            == (i < 32 && Bit(w, i + 16))
  {
    var b := [ByteAt(w, 40), ByteAt(w, 32), ByteAt(w, 24), ByteAt(w, 16)];
    OrBit(Or(Or(b[3], Shl(b[2], 8)), Shl(b[1], 16)), Shl(b[0], 24), i);
    OrBit(Or(b[3], Shl(b[2], 8)), Shl(b[1], 16), i);
    OrBit(b[3], Shl(b[2], 8), i);
    ShlBit(b[2], 8, i);
    ShlBit(b[1], 16, i);
    ShlBit(b[0], 24, i);
    ByteBit(w, 16, i);
    if i >= 8 { ByteBit(w, 24, i - 8); }
    if i >= 16 { ByteBit(w, 32, i - 16); }
    if i >= 24 { ByteBit(w, 40, i - 24); }
  }

  // ----- the scale

  lemma LowTwoBits(x: nat)
    ensures And(x, 3) == x % 4 && Shr(x, 2) == x / 4
    ensures And(x, 4) == 4 <==> x / 4 % 2 == 1
    ensures NeedsContinuation(x) <==> x > 3
    ensures PackedScale(x) == if x > 3 then x % 4 + 4 else x
  {
    assert Mask(2) == 3 && Pow2(2) == 4 && Shl(1, 2) == 4;
    AndMask(x, 2);
    LowIsMod(x, 2);
    OrIsPlus(x % 4, 1, 2);
    AndFour(x);
  }

  lemma AndFour(x: nat)
    ensures And(x, 4) == x / 4 % 2 * 4
  {
    assert And(x, 4) == 2 * And(x / 2, 2);
    assert And(x / 2, 2) == 2 * And(x / 2 / 2, 1);
    AndOne(x / 4);
  }

  lemma AndOne(x: nat)
    ensures And(x, 1) == x % 2
  {
  }

  const SCALE_LIMIT := 0x2_0000_0000

  lemma BigPowers()
    ensures Pow2(62) == 0x4000_0000_0000_0000
  {
    Powers();
    Pow2Steps(5);
    Pow2Steps(6);
    Pow2Steps(7);
    assert Pow2(62) == 64 * Pow2(56);
  }

  lemma ContinuedScale(r: nat, q: nat)
    requires r < 4
    ensures Or(r, Low(Shl(q, 2), 64)) == r + 4 * (q % 0x4000_0000_0000_0000)
  {
    LowOfShl(q, 2, 62);
    assert Pow2(2) == 4;
    OrIsPlus(r, Low(q, 62), 2);
    ShlIsTimes(Low(q, 62), 2);
    LowOf62(q);
  }

  lemma LowOf62(q: nat)
    ensures Low(q, 62) == q % 0x4000_0000_0000_0000
  {
    LowIsMod(q, 62);
    BigPowers();
  }

  /** What the reader makes of a scale sent in the low bits and a continuation. */
  function ReadScale(scale: nat): nat {
    var rest := SignExtend(WrapI32(scale / 4));
    if scale <= 3 then scale else scale % 4 + 4 * (rest % 0x4000_0000_0000_0000)
  }

  /** The scale is read back exactly when it is below 2^33: its upper part is sent as 32 bits. */
  lemma ScaleSurvives(scale: nat)
    requires scale < 0x8000_0000_0000_0000
    ensures scale < SCALE_LIMIT ==> ReadScale(scale) == scale
    ensures scale >= SCALE_LIMIT ==>
              || (ReadScale(scale) < SCALE_LIMIT && ReadScale(scale) + 2 * SCALE_LIMIT <= scale)
              || ReadScale(scale) >= 0xFFFF_FFFC_0000_0000
  {
    var q := scale / 4;
    var m := q % TWO32;
    if scale >= SCALE_LIMIT {
      if m >= 0x8000_0000 {
        assert SignExtend(WrapI32(q)) == m - TWO32 + TWO32 * TWO32;
        assert (m - TWO32 + TWO32 * TWO32) % 0x4000_0000_0000_0000 == m - TWO32 + 0x4000_0000_0000_0000;
      } else {
        assert ReadScale(scale) == scale % 4 + 4 * m;
      }
    }
  }

  lemma FirstByte(w: nat, ps: nat)
    requires Low(w, 3) == ps
    ensures ByteAt(w, 0) % 8 == ps
  {
    LowOfLow(w, 3, 8);
    LowIsMod(Low(w, 8), 3);
    assert Pow2(3) == 8 && Shr(w, 0) == w;
  }

  // ----- accuracy

  /** The fraction a 15-bit number up to 32766 stands for. */
  function Dequantize(n: nat): real {
    n as real * 2.0 / MAX_QUANTIZED - 1.0
  }

  lemma QuantizationStep(t: real)
    requires -1.0 <= t <= 1.0
    ensures -1.0 <= Dequantize(Pack(t)) <= 1.0
    ensures -1.0 / 32766.0 <= Dequantize(Pack(t)) - t <= 1.0 / 32766.0
  {
  }

  lemma QuantizationError(t: real, s: real, c: real)
    requires -1.0 <= t <= 1.0 && s >= 0.0 && Times(t, s) == c
    ensures -1.0 <= Dequantize(Pack(t)) <= 1.0
    ensures Abs(Times(Dequantize(Pack(t)), s) - c) <= s / 32766.0
  {
    hide Pack, Dequantize;
    QuantizationStep(t);
    var u := Dequantize(Pack(t));
    Scaled(u - t, s);
    assert (u - t) * s == u * s - t * s;
  }

  lemma Scaled(d: real, s: real)
    requires s >= 0.0 && -1.0 / 32766.0 <= d <= 1.0 / 32766.0
    ensures -s / 32766.0 <= d * s <= s / 32766.0
  {
    assert (1.0 / 32766.0 - d) * s >= 0.0;
    assert (1.0 / 32766.0 + d) * s >= 0.0;
  }

  ghost predicate Near(a: Vec3, b: Vec3, eps: real) {
    Abs(a.x - b.x) <= eps && Abs(a.y - b.y) <= eps && Abs(a.z - b.z) <= eps
  }

  /** Half a quantisation step of the scale, or the size of what is sent as zero. */
  function Tolerance(v: Vec3): real {
    if Tiny(v) then CUTOFF else Scale(v) as real / MAX_QUANTIZED
  }

  function Times(a: real, b: real): real {
    a * b
  }

  /** The coordinate read back when the scale comes back as `scale`. */
  function ReadCoordinate(c: real, v: Vec3, scale: nat): real
    requires !Tiny(v) && -Largest(v) <= c <= Largest(v)
  {
    Times(Dequantize(Pack(Fraction(c, v))), scale as real)
  }

  /** What decoding the encoded vector yields. */
  function ReadVec(v: Vec3): Vec3 {
    if Tiny(v) then Vec3(0.0, 0.0, 0.0)
    else
      var s := ReadScale(Scale(v));
      Vec3(ReadCoordinate(v.x, v, s), ReadCoordinate(v.y, v, s), ReadCoordinate(v.z, v, s))
  }

  lemma UnpackField(w: nat, off: nat, n: nat)
    requires n <= 32766 && And(Shr(w, off), 0x7FFF) == n
    ensures Unpack(Shr(w, off)) == Dequantize(n)
  {
  }

  /** The scale bits of the first byte, and the scale they and the continuation give. */
  lemma ScaleByte(b: Byte, scale: nat)
    requires b % 8 == PackedScale(scale)
    ensures And(b, 4) == 4 <==> NeedsContinuation(scale)
    ensures DecodedScale(b, if NeedsContinuation(scale) then WrapI32(Shr(scale, 2)) else 0) == ReadScale(scale)
  {
    hide And, Or, Low, Shl, Shr, PackedScale, WrapI32, SignExtend;
    LowTwoBits(b);
    LowTwoBits(scale);
    if NeedsContinuation(scale) {
      ContinuedScale(scale % 4, SignExtend(WrapI32(scale / 4)));
    }
  }

  lemma PackedScaleBound(scale: nat)
    ensures PackedScale(scale) < 8
    ensures scale >= 1 ==> PackedScale(scale) >= 1
  {
    LowTwoBits(scale);
  }

  lemma DecodeWord(v: Vec3)
    requires !Tiny(v)
    ensures var b := WordBytes(VectorWord(v));
            && b[0] % 8 == PackedScale(Scale(v)) && b[0] != 0
            && VecOf(JoinBytes(b), ReadScale(Scale(v))) == ReadVec(v)
  {
    hide And, Or, Low, Shl, Shr, Word, Unpack, JoinBytes, ByteAt, PackedScale, ReadScale, Pack, Fraction, Scale, Tiny;
    var w, ps := VectorWord(v), PackedScale(Scale(v));
    var x, y, z := Pack(Fraction(v.x, v)), Pack(Fraction(v.y, v)), Pack(Fraction(v.z, v));
    PackedScaleBound(Scale(v));
    FieldsRoundTrip(x, y, z, ps);
    BytesRoundTrip(w);
    FirstByte(w, ps);
    UnpackField(w, 3, x);
    UnpackField(w, 18, y);
    UnpackField(w, 33, z);
  }

  /** Decoding consumes exactly the encoded bytes; only vectors below the cutoff start with a zero byte. */
  lemma DecodeEncode(v: Vec3, tail: seq<Byte>)
    ensures DecodeVec(EncodeVec(v) + tail) == Ok((ReadVec(v), |EncodeVec(v)|))
    ensures EncodeVec(v)[0] == 0 <==> Tiny(v)
  {
    hide VecOf, JoinBytes, WordBytes, ReadVec, DecodedScale, And, Encode, Decode, ReadScale;
    if Tiny(v) {
      TinyReadsZero(v);
    } else {
      var s := EncodeVec(v) + tail;
      var b := WordBytes(VectorWord(v));
      SixBytes(VectorWord(v));
      DecodeWord(v);
      ScaleByte(b[0], Scale(v));
      assert s[..6] == b;
      if NeedsContinuation(Scale(v)) {
        var rest := WrapI32(Shr(Scale(v), 2));
        assert s[6..] == Encode(rest) + tail;
        VarInts.RoundTrip(rest, tail);
      }
    }
  }

  lemma TinyReadsZero(v: Vec3)
    requires Tiny(v)
    ensures ReadVec(v) == Vec3(0.0, 0.0, 0.0)
  {
  }

  lemma SixBytes(w: nat)
    ensures |WordBytes(w)| == 6
  {
  }

  /**
   A coordinate is sent as a fraction `u` of the scale: `us` is what the sent scale
   would give and `ur` what the scale read back gives.
   */
  lemma CoordinateError(c: real, v: Vec3, scale: nat) returns (us: real, ur: real)
    requires !Tiny(v) && -Largest(v) <= c <= Largest(v)
    ensures ReadCoordinate(c, v, scale) == ur
    ensures Abs(us - c) <= Scale(v) as real / 32766.0
    ensures Abs(ur) <= scale as real
    ensures Abs(us) > 0.9 * Scale(v) as real ==> Abs(ur) >= 0.9 * scale as real
    ensures scale == Scale(v) ==> us == ur
  {
    hide Abs, Times, Pack, Dequantize, Fraction, Scale, Largest, Tiny;
    var t := Fraction(c, v);
    TimesScale(c, v);
    QuantizationError(t, Scale(v) as real, c);
    var u := Dequantize(Pack(t));
    us, ur := Times(u, Scale(v) as real), Times(u, scale as real);
    SameFraction(u, Scale(v) as real, scale as real);
  }

  lemma SameFraction(u: real, s: real, r: real)
    requires -1.0 <= u <= 1.0 && s >= 0.0 && r >= 0.0
    ensures Abs(Times(u, r)) <= r
    ensures Abs(Times(u, s)) > 0.9 * s ==> Abs(Times(u, r)) >= 0.9 * r
  {
    Bracket(u, r);
    if -0.9 < u < 0.9 {
      Magnitude(u, s);
    } else {
      GrowsWith(u, r);
    }
  }

  lemma TimesScale(c: real, v: Vec3)
    requires !Tiny(v) && -Largest(v) <= c <= Largest(v)
    ensures Times(Fraction(c, v), Scale(v) as real) == c
  {
    FractionInRange(c, Scale(v) as real);
  }

  lemma CoordinateNear(c: real, v: Vec3)
    requires !Tiny(v) && -Largest(v) <= c <= Largest(v)
    ensures Abs(ReadCoordinate(c, v, Scale(v)) - c) <= Scale(v) as real / MAX_QUANTIZED
  {
    hide ReadCoordinate, Scale, Largest, Tiny;
    var _, _ := CoordinateError(c, v, Scale(v));
  }

  lemma ReadIsNear(v: Vec3)
    requires Tiny(v) || Scale(v) < SCALE_LIMIT
    ensures Near(ReadVec(v), v, Tolerance(v))
  {
    if !Tiny(v) {
      ScaleSurvives(Scale(v));
      CoordinateNear(v.x, v);
      CoordinateNear(v.y, v);
      CoordinateNear(v.z, v);
    }
  }

  /** A coordinate as large as the vector itself is lost when its scale does not survive. */
  lemma CoordinateFar(c: real, v: Vec3)
    requires !Tiny(v) && SCALE_LIMIT <= Scale(v) < 0x8000_0000_0000_0000
    requires Abs(c) == Largest(v)
    ensures Abs(ReadCoordinate(c, v, ReadScale(Scale(v))) - c) > Tolerance(v)
  {
    hide ReadCoordinate, ReadScale, Scale, Largest, Tiny;
    var s, r := Scale(v) as real, ReadScale(Scale(v)) as real;
    ScaleSurvives(Scale(v));
    var us, ur := CoordinateError(c, v, ReadScale(Scale(v)));
    WrongScale(us, ur, s, r, c, s / 32766.0);
  }

  lemma WrongScale(us: real, ur: real, s: real, r: real, c: real, eps: real)
    requires 8589934592.0 <= s <= 9223372036854775808.0 && eps * 32766.0 == s
    requires s >= Abs(c) > s - 1.0 && Abs(us - c) <= eps
    requires 0.0 <= r && Abs(ur) <= r && (Abs(us) > 0.9 * s ==> Abs(ur) >= 0.9 * r)
    requires (r < 8589934592.0 && r + 17179869184.0 <= s) || r >= 18446744056529682432.0
    ensures Abs(ur - c) > eps
  {
  }

  lemma Bracket(u: real, r: real)
    requires -1.0 <= u <= 1.0 && r >= 0.0
    ensures -r <= u * r <= r
  {
    assert (1.0 - u) * r >= 0.0;
    assert (1.0 + u) * r >= 0.0;
  }

  lemma Magnitude(u: real, s: real)
    requires s >= 0.0 && -0.9 < u < 0.9
    ensures -0.9 * s <= u * s <= 0.9 * s
  {
    assert (0.9 - u) * s >= 0.0;
    assert (0.9 + u) * s >= 0.0;
  }

  lemma GrowsWith(u: real, r: real)
    requires Abs(u) >= 0.9 && r >= 0.0
    ensures Abs(u * r) >= 0.9 * r
  {
    if u >= 0.9 {
      assert (u - 0.9) * r >= 0.0;
    } else {
      assert (-u - 0.9) * r >= 0.0;
    }
  }

  /**
   Every vector within the 64-bit range is read back to within half a quantisation
   step exactly when its scale is below 2^33 (the zeroed tiny vectors included).
   */
  lemma AccurateIffScaleFits(v: Vec3)
    requires Scale(v) < 0x8000_0000_0000_0000
    ensures Near(ReadVec(v), v, Tolerance(v)) <==> Scale(v) < SCALE_LIMIT
  {
    hide ReadCoordinate, ReadScale, Scale;
    if Scale(v) < SCALE_LIMIT {
      ReadIsNear(v);
    } else {
      LargeIsNotTiny(v);
      if Abs(v.x) == Largest(v) {
        CoordinateFar(v.x, v);
      } else if Abs(v.y) == Largest(v) {
        CoordinateFar(v.y, v);
      } else {
        CoordinateFar(v.z, v);
      }
    }
  }

  lemma LargeIsNotTiny(v: Vec3)
    requires Scale(v) >= SCALE_LIMIT
    ensures !Tiny(v)
  {
  }

  /** A vector 2^33 long is such a vector: it is not read back, nor is anything near it. */
  lemma FirstScaleLost()
    ensures var v := Vec3(8589934592.0, 0.0, 0.0);
            Scale(v) == SCALE_LIMIT && !Near(ReadVec(v), v, Tolerance(v))
  {
    hide ReadVec, Near, Tolerance;
    AccurateIffScaleFits(Vec3(8589934592.0, 0.0, 0.0));
  }

  // ----- the layout

  /** The fields of the word by their places: the scale, then x, y and z from bits 3, 18 and 33 on. */
  lemma WordIs(x: nat, y: nat, z: nat, ps: nat)
    requires x < 0x8000 && y < 0x8000 && z < 0x8000 && ps < 8
    ensures Word(x, y, z, ps) == ps + 0x8 * x + 0x4_0000 * y + 0x2_0000_0000 * z
  {
    hide Or, Shl, Pow2;
    FieldPowers();
    OrSym(Shl(z, 33), Shl(y, 18));
    ShlIsTimes(y, 18);
    ShlIsTimes(z, 33);
    ShlIsTimes(z, 15);
    OrIsPlus(Shl(y, 18), z, 33);
    var high := y + Shl(z, 15);
    ShlIsTimes(high, 18);
    assert Or(Shl(z, 33), Shl(y, 18)) == Shl(high, 18);
    OrSym(Shl(high, 18), Shl(x, 3));
    ShlIsTimes(x, 3);
    OrIsPlus(Shl(x, 3), high, 18);
    var upper := x + Shl(high, 15);
    ShlIsTimes(high, 15);
    ShlIsTimes(upper, 3);
    assert Or(Shl(high, 18), Shl(x, 3)) == Shl(upper, 3);
    OrSym(Shl(upper, 3), ps);
    OrIsPlus(ps, upper, 3);
  }

  lemma FieldPowers()
    ensures Pow2(3) == 0x8 && Pow2(15) == 0x8000 && Pow2(18) == 0x4_0000 && Pow2(33) == 0x2_0000_0000
    ensures Pow2(8) == 0x100 && Pow2(16) == 0x1_0000 && Pow2(24) == 0x100_0000
    ensures Pow2(32) == 0x1_0000_0000 && Pow2(40) == 0x100_0000_0000
  {
    assert Pow2(3) == 8;
    Times8(0);
    Times8(8);
    Times8(16);
    Times8(24);
    Times8(32);
    assert Pow2(15) == 0x8000 && Pow2(18) == 4 * Pow2(16) && Pow2(33) == 2 * Pow2(32);
  }

  lemma Times8(k: nat)
    ensures Pow2(k + 8) == 0x100 * Pow2(k)
  {
    assert Pow2(k + 8) == 2 * Pow2(k + 7) == 4 * Pow2(k + 6) == 8 * Pow2(k + 5) == 0x10 * Pow2(k + 4);
    assert Pow2(k + 4) == 2 * Pow2(k + 3) == 4 * Pow2(k + 2) == 8 * Pow2(k + 1) == 0x10 * Pow2(k);
  }

  lemma ByteIs(w: nat, k: nat)
    ensures ByteAt(w, k) == w / Pow2(k) % 0x100
  {
    hide Low, Shr;
    FieldPowers();
    LowIsMod(w, k);
    LowIsMod(Shr(w, k), 8);
  }

  /** A coordinate's field is the nearest of the 32767 levels from minus the scale to the scale. */
  predicate Nearest(field: nat, c: real, scale: real) {
    scale > 0.0 && field as real - 0.5 <= (c / scale * 0.5 + 0.5) * 32766.0 < field as real + 0.5
  }

  /**
   The encoding of a vector that is not tiny, by arithmetic alone: the scale's low two bits,
   a flag for more of it, and the three levels form a number of 48 bits, of which the two
   lowest bytes come first and the other four follow with the highest first; then the rest
   of the scale, if there is more.
   */
  lemma EncodingIs(v: Vec3) returns (x: nat, y: nat, z: nat)
    requires !Tiny(v)
    ensures var scale := Scale(v);
            && Nearest(x, v.x, scale as real) && Nearest(y, v.y, scale as real) && Nearest(z, v.z, scale as real)
            && var w := (if scale > 3 then scale % 4 + 4 else scale) + 0x8 * x + 0x4_0000 * y + 0x2_0000_0000 * z;
               EncodeVec(v) ==
               [w % 0x100, w / 0x100 % 0x100, w / 0x100_0000_0000 % 0x100, w / 0x1_0000_0000 % 0x100,
                w / 0x100_0000 % 0x100, w / 0x1_0000 % 0x100]
               + (if scale > 3 then Encode(WrapI32(scale / 4)) else [])
  {
    hide Word, ByteAt, PackedScale, Shr, Pow2, Encode, NeedsContinuation;
    x, y, z := Pack(Fraction(v.x, v)), Pack(Fraction(v.y, v)), Pack(Fraction(v.z, v));
    LowTwoBits(Scale(v));
    var ps := PackedScale(Scale(v));
    WordIs(x, y, z, ps);
    var w := Word(x, y, z, ps);
    FieldPowers();
    WholeAtZero(w);
    ByteIs(w, 0);
    ByteIs(w, 8);
    ByteIs(w, 40);
    ByteIs(w, 32);
    ByteIs(w, 24);
    ByteIs(w, 16);
  }

  lemma WholeAtZero(w: nat)
    ensures w / Pow2(0) == w
  {
  }

  /** The number six bytes stand for: the first two lowest first, the other four highest first above them. */
  function Mixed(b: seq<Byte>): nat
    requires |b| >= 6
  {
    b[0] as int + 0x100 * b[1] as int + 0x1_0000 * b[5] as int + 0x100_0000 * b[4] as int
    + 0x1_0000_0000 * b[3] as int + 0x100_0000_0000 * b[2] as int
  }

  lemma JoinIs(b: seq<Byte>)
    requires |b| == 6
    ensures JoinBytes(b) == Mixed(b)
  {
    hide Or, Shl, Pow2;
    FieldPowers();
    var hi := b[2..];
    ShlIsTimes(hi[2], 8);
    ShlIsTimes(hi[1], 16);
    ShlIsTimes(hi[0], 24);
    OrIsPlus(hi[3], hi[2], 8);
    OrIsPlus(hi[3] + Shl(hi[2], 8), hi[1], 16);
    OrIsPlus(hi[3] + Shl(hi[2], 8) + Shl(hi[1], 16), hi[0], 24);
    var four := BigEndian(hi);
    ShlIsTimes(four, 16);
    ShlIsTimes(b[1], 8);
    OrSym(Shl(four, 16), Shl(b[1], 8));
    OrIsPlus(Shl(b[1], 8), four, 16);
    ShlIsTimes(four, 8);
    var upper := b[1] + Shl(four, 8);
    ShlIsTimes(upper, 8);
    assert Or(Shl(four, 16), Shl(b[1], 8)) == Shl(upper, 8);
    OrSym(Shl(upper, 8), b[0]);
    OrIsPlus(b[0], upper, 8);
  }

  /** What one field stands for: its level, the one above the highest counting as the highest. */
  function LevelOf(field: nat): real {
    (if field > 32766 then 32766.0 else field as real) * 2.0 / 32766.0 - 1.0
  }

  lemma UnpackIs(w: nat, k: nat)
    ensures Unpack(Shr(w, k)) == LevelOf(w / Pow2(k) % 0x8000)
  {
    hide And, Shr, Low, Pow2;
    FieldPowers();
    MaskValue(15);
    AndMask(Shr(w, k), 15);
    LowIsMod(Shr(w, k), 15);
    LowIsMod(w, k);
  }

  function LevelsOf(w: nat, scale: nat): Vec3 {
    Vec3(LevelOf(w / 0x8 % 0x8000) * scale as real, LevelOf(w / 0x4_0000 % 0x8000) * scale as real,
         LevelOf(w / 0x2_0000_0000 % 0x8000) * scale as real)
  }

  lemma CoordinatesAre(s: seq<Byte>, scale: nat)
    requires |s| >= 6
    ensures VecOf(JoinBytes(s[..6]), scale) == LevelsOf(Mixed(s), scale)
  {
    hide Unpack, LevelOf, JoinBytes, Shr, Pow2;
    JoinIs(s[..6]);
    assert Mixed(s[..6]) == Mixed(s);
    FieldPowers();
    UnpackIs(Mixed(s), 3);
    UnpackIs(Mixed(s), 18);
    UnpackIs(Mixed(s), 33);
  }

  /**
   Whatever six bytes are read, the coordinates are the levels of the three fields times the
   scale. The scale is the two low bits, with the rest that follows as multiples of four,
   kept to 64 bits, if the third bit says so.
   */
  lemma DecodingIs(s: seq<Byte>)
    requires |s| >= 6 && s[0] != 0
    ensures var more := s[0] / 4 % 2 == 1;
            if more && Decode(s[6..]).Err? then DecodeVec(s) == Err(Decode(s[6..]).error)
            else
              var rest := if more then Decode(s[6..]).value else 0;
              var scale := s[0] % 4 + (4 * rest) % 0x1_0000_0000_0000_0000;
              DecodeVec(s) == Ok((LevelsOf(Mixed(s), scale), if more then 6 + Consumed(s[6..]) else 6))
  {
    hide VecOf, LevelsOf, JoinBytes, DecodedScale, Decode, Consumed, And, Mixed;
    LowTwoBits(s[0]);
    if s[0] / 4 % 2 == 1 {
      if Decode(s[6..]).Ok? {
        ScaleIs(s[0], Decode(s[6..]).value);
        CoordinatesAre(s, DecodedScale(s[0], Decode(s[6..]).value));
      }
    } else {
      ScaleIs(s[0], 0);
      CoordinatesAre(s, DecodedScale(s[0], 0));
    }
  }

  lemma ScaleIs(b: Byte, rest: Int32)
    requires b / 4 % 2 == 1 || rest == 0
    ensures DecodedScale(b, rest) == b % 4 + (4 * rest) % 0x1_0000_0000_0000_0000
  {
    hide And, Or, Shl, Low, Pow2;
    LowTwoBits(b);
    FieldPowers();
    var x := SignExtend(rest);
    ShlIsTimes(x, 2);
    assert Pow2(2) == 4 by { PowTwo(); }
    LowOfShl(x, 2, 62);
    LowIsMod(Shl(x, 2), 64);
    Pow64();
    ShlIsTimes(Low(x, 62), 2);
    OrIsPlus(b % 4, Low(x, 62), 2);
    SignedTimes4(rest);
  }

  lemma PowTwo()
    ensures Pow2(2) == 4
  {
  }

  lemma Pow64()
    ensures Pow2(64) == 0x1_0000_0000_0000_0000
  {
    hide Pow2;
    FieldPowers();
    Times8(40);
    Times8(48);
    Times8(56);
  }

  lemma SignedTimes4(rest: Int32)
    ensures SignExtend(rest) * 4 % 0x1_0000_0000_0000_0000 == (4 * rest) % 0x1_0000_0000_0000_0000
  {
    if rest < 0 {
      assert SignExtend(rest) * 4 == 4 * rest + 4 * 0x1_0000_0000_0000_0000;
    }
  }

  // ----- the implementation

  method WriteTo(v: Vec3, w: ByteSink)
    modifies w
    ensures w.written == old(w.written) + EncodeVec(v)
  {
    hide And, Or, Low, Shl, Shr, Pack, Fraction;
    var maxCoordinate := Max(Abs(v.x), Max(Abs(v.y), Abs(v.z)));
    if maxCoordinate < CUTOFF {
      w.Write([0]);
      return;
    }
    var maxCoordinateI := maxCoordinate.Floor;
    var scaleFactor := if maxCoordinate > maxCoordinateI as real then maxCoordinateI + 1 else maxCoordinateI;
    assert scaleFactor == Scale(v);
    var needContinuation := And(scaleFactor, 3) != scaleFactor;
    var packedScale := if needContinuation then Or(And(scaleFactor, 3), 4) else scaleFactor;
    var packedX := Shl(Pack(Fraction(v.x, v)), 3);
    var packedY := Shl(Pack(Fraction(v.y, v)), 18);
    var packedZ := Shl(Pack(Fraction(v.z, v)), 33);
    var packed := Or(Or(Or(packedZ, packedY), packedX), packedScale);
    w.Write(WordBytes(packed));
    if needContinuation {
      VarInts.WriteTo(WrapI32(Shr(scaleFactor, 2)), w);
    }
  }

  method ReadFrom(r: ByteSource) returns (v: Result<Vec3, ReadError>)
    modifies r
    ensures match DecodeVec(old(r.rest))
            case Ok((vec, n)) => v == Ok(vec) && r.rest == old(r.rest)[n..]
            case Err(e) => v == Err(e)
  {
    hide And, Or, Low, Shl, Shr, Unpack, Decode, SignExtend, Consumed;
    ghost var s := r.rest;
    var byte1 := r.ReadByte();
    if byte1.None? {
      return Err(Eof);
    }
    if byte1.value == 0 {
      return Ok(Vec3(0.0, 0.0, 0.0));
    }
    var byte2 := r.ReadByte();
    if byte2.None? {
      return Err(Eof);
    }
    var four := r.ReadFull(4);
    if four.None? {
      return Err(Eof);
    }
    var fourBytes := four.value;
    assert s[..6] == [byte1.value, byte2.value] + fourBytes;
    assert s[..6][2..] == fourBytes;
    var packed := Or(Or(Shl(BigEndian(fourBytes), 16), Shl(byte2.value, 8)), byte1.value);
    assert packed == JoinBytes(s[..6]);
    var scaleFactor := And(byte1.value, 3);
    if And(byte1.value, 4) == 4 {
      var rest := VarInts.ReadFrom(r);
      if rest.Err? {
        return Err(rest.error);
      }
      assert s[6..][Consumed(s[6..])..] == s[6 + Consumed(s[6..])..];
      scaleFactor := Or(scaleFactor, Low(Shl(SignExtend(rest.value), 2), 64));
      assert scaleFactor == DecodedScale(s[0], rest.value);
    } else {
      assert scaleFactor == DecodedScale(s[0], 0);
    }
    return Ok(VecOf(packed, scaleFactor));
  }
}
