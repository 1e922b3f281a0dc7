/**
 Fixed-width words as naturals, with the bitwise operators of the source
 language defined bit by bit. Every law is proved from the value of single bits,
 so that packed layouts can be reasoned about one bit at a time.
 */
module Bits {
  type Byte = x: int | 0 <= x < 256

  /** True iff bit `i` of `x` is set. */
  predicate Bit(x: nat, i: nat) {
    if i == 0 then x % 2 == 1 else Bit(x / 2, i - 1)
  }

  function Pow2(k: nat): (p: nat)
    ensures p >= 1
  {
    if k == 0 then 1 else 2 * Pow2(k - 1)
  }

  function And(a: nat, b: nat): nat {
    if a == 0 || b == 0 then 0
    else 2 * And(a / 2, b / 2) + (if a % 2 == 1 && b % 2 == 1 then 1 else 0)
  }

  function Or(a: nat, b: nat): nat
    decreases a + b
  {
    if a == 0 && b == 0 then 0
    else 2 * Or(a / 2, b / 2) + (if a % 2 == 1 || b % 2 == 1 then 1 else 0)
  }

  /** Go's `a &^ b`: the bits of `a` that are not in `b`. */
  function AndNot(a: nat, b: nat): nat {
    if a == 0 then 0
    else 2 * AndNot(a / 2, b / 2) + (if a % 2 == 1 && b % 2 == 0 then 1 else 0)
  }

  /** Go's `uint64(v)`: two's complement for negative numbers. */
  function ToU64(v: int): nat {
    v % 0x1_0000_0000_0000_0000
  }

  function Xor(a: nat, b: nat): nat
    decreases a + b
  {
    if a == 0 && b == 0 then 0
    else 2 * Xor(a / 2, b / 2) + (if a % 2 != b % 2 then 1 else 0)
  }

  function Shl(x: nat, k: nat): nat {
    if k == 0 then x else 2 * Shl(x, k - 1)
  }

  function Shr(x: nat, k: nat): nat {
    if k == 0 then x else Shr(x / 2, k - 1)
  }

  /** The low `k` bits of `x`: what a `k`-bit word keeps of it. */
  function Low(x: nat, k: nat): nat {
    if k == 0 then 0 else 2 * Low(x / 2, k - 1) + x % 2
  }

  /** `(1 << k) - 1`. */
  function Mask(k: nat): nat {
    if k == 0 then 0 else 2 * Mask(k - 1) + 1
  }

  /** `x` fits in a `k`-bit word. */
  ghost predicate Fits(x: nat, k: nat) {
    forall i: nat | i >= k :: !Bit(x, i)
  }

  ghost predicate SameBits(a: nat, b: nat) {
    forall i: nat :: Bit(a, i) == Bit(b, i)
  }

  // ----- single-bit laws

  lemma {:induction false} ZeroBit(i: nat)
    ensures !Bit(0, i)
  {
    if i == 0 {
    } else {
      ZeroBit(i - 1);
    }
  }

  lemma {:induction false} AndBit(a: nat, b: nat, i: nat)
    ensures Bit(And(a, b), i) == (Bit(a, i) && Bit(b, i))
  {
    if a == 0 || b == 0 {
      ZeroBit(i);
    } else if i > 0 {
      AndBit(a / 2, b / 2, i - 1);
    }
  }

  lemma {:induction false} OrBit(a: nat, b: nat, i: nat)
    ensures Bit(Or(a, b), i) == (Bit(a, i) || Bit(b, i))
  {
    if a == 0 && b == 0 {
      ZeroBit(i);
    } else if i > 0 {
      OrBit(a / 2, b / 2, i - 1);
    }
  }

  lemma {:induction false} AndNotBit(a: nat, b: nat, i: nat)
    ensures Bit(AndNot(a, b), i) == (Bit(a, i) && !Bit(b, i))
  {
    if a == 0 {
      ZeroBit(i);
    } else if i > 0 {
      AndNotBit(a / 2, b / 2, i - 1);
    }
  }

  lemma {:induction false} XorBit(a: nat, b: nat, i: nat)
    ensures Bit(Xor(a, b), i) == (Bit(a, i) != Bit(b, i))
  {
    if a == 0 && b == 0 {
      ZeroBit(i);
    } else if i > 0 {
      XorBit(a / 2, b / 2, i - 1);
    }
  }

  lemma {:induction false} ShlBit(x: nat, k: nat, i: nat)
    ensures Bit(Shl(x, k), i) == (i >= k && Bit(x, i - k))
  {
    if k == 0 || i == 0 {
    } else {
      ShlBit(x, k - 1, i - 1);
    }
  }

  lemma {:induction false} ShrBit(x: nat, k: nat, i: nat)
    ensures Bit(Shr(x, k), i) == Bit(x, i + k)
  {
    if k == 0 {
    } else {
      ShrBit(x / 2, k - 1, i);
    }
  }

  lemma {:induction false} LowBit(x: nat, k: nat, i: nat)
    ensures Bit(Low(x, k), i) == (i < k && Bit(x, i))
  {
    if k == 0 {
      ZeroBit(i);
    } else if i > 0 {
      LowBit(x / 2, k - 1, i - 1);
    }
  }

  lemma {:induction false} MaskBit(k: nat, i: nat)
    ensures Bit(Mask(k), i) == (i < k)
  {
    if k == 0 {
      ZeroBit(i);
    } else if i > 0 {
      MaskBit(k - 1, i - 1);
    }
  }

  // ----- words are determined by their bits

  lemma {:induction false} Extensional(a: nat, b: nat)
    requires SameBits(a, b)
    ensures a == b
    decreases a + b
  {
    assert Bit(a, 0) == Bit(b, 0);
    if a == 0 && b == 0 {
    } else {
      forall i: nat ensures Bit(a / 2, i) == Bit(b / 2, i) {
        assert Bit(a, i + 1) == Bit(b, i + 1);
      }
      Extensional(a / 2, b / 2);
    }
  }

  // ----- words and arithmetic

  lemma {:induction false} FitsIffBounded(x: nat, k: nat)
    ensures Fits(x, k) <==> x < Pow2(k)
    decreases x, k
  {
    if x == 0 {
      forall i: nat ensures !Bit(x, i) { ZeroBit(i); }
    } else if k == 0 {
      if Fits(x, 0) {
        forall i: nat ensures Bit(x, i) == Bit(0, i) { ZeroBit(i); }
        Extensional(x, 0);
      }
    } else {
      FitsIffBounded(x / 2, k - 1);
      if Fits(x, k) {
        forall i: nat | i >= k - 1 ensures !Bit(x / 2, i) { assert !Bit(x, i + 1); }
      }
      if Fits(x / 2, k - 1) {
        forall i: nat | i >= k ensures !Bit(x, i) { assert !Bit(x / 2, i - 1); }
      }
    }
  }

  /** `|` ignores order and grouping. */
  lemma OrSym(a: nat, b: nat)
    ensures Or(a, b) == Or(b, a)
  {
    forall i: nat ensures Bit(Or(a, b), i) == Bit(Or(b, a), i) {
      OrBit(a, b, i);
      OrBit(b, a, i);
    }
    Extensional(Or(a, b), Or(b, a));
  }

  lemma OrAssoc(a: nat, b: nat, c: nat)
    ensures Or(Or(a, b), c) == Or(a, Or(b, c))
  {
    forall i: nat ensures Bit(Or(Or(a, b), c), i) == Bit(Or(a, Or(b, c)), i) {
      OrBit(Or(a, b), c, i);
      OrBit(a, b, i);
      OrBit(a, Or(b, c), i);
      OrBit(b, c, i);
    }
    Extensional(Or(Or(a, b), c), Or(a, Or(b, c)));
  }

  lemma {:induction false} ShlIsTimes(x: nat, k: nat)
    ensures Shl(x, k) == x * Pow2(k)
  {
    if k == 0 {
    } else {
      ShlIsTimes(x, k - 1);
    }
  }

  lemma {:induction false} SplitLow(x: nat, k: nat)
    ensures x == Low(x, k) + Shl(Shr(x, k), k)
    ensures Low(x, k) < Pow2(k)
  {
    if k == 0 {
    } else {
      SplitLow(x / 2, k - 1);
    }
  }

  /** The masking and shifting idiom is Euclidean division by a power of two. */
  lemma LowIsMod(x: nat, k: nat)
    ensures Low(x, k) == x % Pow2(k)
    ensures Shr(x, k) == x / Pow2(k)
  {
    SplitLow(x, k);
    ShlIsTimes(Shr(x, k), k);
    DivModUnique(x, Pow2(k), Shr(x, k), Low(x, k));
  }

  lemma DivModUnique(x: nat, d: nat, q: nat, r: nat)
    requires r < d && x == q * d + r
    ensures x / d == q && x % d == r
  {
    var q', r' := x / d, x % d;
    DivModIdentity(x, d);
    Distribute(q', q, d);
    NoSmallMultiple(q' - q, d);
  }

  lemma DivModIdentity(x: nat, d: nat)
    requires d > 0
    ensures x == x / d * d + x % d
    ensures 0 <= x % d < d
  {
  }

  lemma Distribute(a: int, b: int, d: int)
    ensures (a - b) * d == a * d - b * d
  {
  }

  lemma NoSmallMultiple(t: int, d: int)
    requires d > 0
    ensures t > 0 ==> t * d >= d
    ensures t < 0 ==> t * d <= -d
  {
    if t > 0 {
      assert (t - 1) * d >= 0;
    } else if t < 0 {
      assert (-t - 1) * d >= 0;
    }
  }

  lemma AndMask(x: nat, k: nat)
    ensures And(x, Mask(k)) == Low(x, k)
  {
    forall i: nat ensures Bit(And(x, Mask(k)), i) == Bit(Low(x, k), i) {
      AndBit(x, Mask(k), i);
      MaskBit(k, i);
      LowBit(x, k, i);
    }
    Extensional(And(x, Mask(k)), Low(x, k));
  }

  /** Truncation to a word commutes with `|`. */
  lemma LowOfOr(a: nat, b: nat, k: nat)
    ensures Low(Or(a, b), k) == Or(Low(a, k), Low(b, k))
  {
    forall i: nat ensures Bit(Low(Or(a, b), k), i) == Bit(Or(Low(a, k), Low(b, k)), i) {
      LowBit(Or(a, b), k, i);
      OrBit(a, b, i);
      OrBit(Low(a, k), Low(b, k), i);
      LowBit(a, k, i);
      LowBit(b, k, i);
    }
    Extensional(Low(Or(a, b), k), Or(Low(a, k), Low(b, k)));
  }

  lemma {:induction false} LowOfSmall(x: nat, k: nat)
    requires x < Pow2(k)
    ensures Low(x, k) == x
  {
    if k == 0 {
    } else {
      LowOfSmall(x / 2, k - 1);
    }
  }

  lemma {:induction false} LowOfShl(x: nat, j: nat, k: nat)
    ensures Low(Shl(x, j), j + k) == Shl(Low(x, k), j)
  {
    if j == 0 {
    } else {
      var y := Shl(x, j - 1);
      LowOfShl(x, j - 1, k);
      assert Low(2 * y, j + k) == 2 * Low(y, j - 1 + k);
    }
  }

  lemma {:induction false} LowOfLow(x: nat, a: nat, b: nat)
    requires a <= b
    ensures Low(Low(x, b), a) == Low(x, a)
  {
    if a == 0 {
    } else {
      LowOfLow(x / 2, a - 1, b - 1);
    }
  }

  lemma {:induction false} MaskValue(k: nat)
    ensures Mask(k) == Pow2(k) - 1
  {
    if k == 0 {
    } else {
      MaskValue(k - 1);
    }
  }

  lemma {:induction false} OrIsPlus(a: nat, b: nat, k: nat)
    requires a < Pow2(k)
    ensures Or(a, Shl(b, k)) == a + Shl(b, k)
  {
    if k == 0 {
      OrZero(b);
    } else {
      OrIsPlus(a / 2, b, k - 1);
    }
  }

  lemma {:induction false} OrZero(b: nat)
    ensures Or(0, b) == b
  {
    if b == 0 {
    } else {
      OrZero(b / 2);
    }
  }

  /** `^` on bytes is a byte, and undoes itself. */
  lemma XorBytes(a: Byte, b: Byte)
    ensures Xor(a, b) < 256
    ensures Xor(Xor(a, b), b) == a
  {
    forall i: nat ensures Bit(Xor(Xor(a, b), b), i) == Bit(a, i) {
      XorBit(a, b, i);
      XorBit(Xor(a, b), b, i);
    }
    Extensional(Xor(Xor(a, b), b), a);
    assert Pow2(8) == 256;
    FitsIffBounded(a, 8);
    FitsIffBounded(b, 8);
    forall i: nat | i >= 8 ensures !Bit(Xor(a, b), i) { XorBit(a, b, i); }
    FitsIffBounded(Xor(a, b), 8);
  }

  /** Go's `byte(w >> k)`. */
  function ByteAt(w: nat, k: nat): (b: Byte) {
    LowByte(Shr(w, k));
    Low(Shr(w, k), 8)
  }

  lemma LowByte(x: nat)
    ensures Low(x, 8) < 256
  {
    SplitLow(x, 8);
    assert Pow2(8) == 256;
  }

  lemma ByteBit(w: nat, k: nat, i: nat)
    ensures Bit(ByteAt(w, k), i) == (i < 8 && Bit(w, i + k))
  {
    LowBit(Shr(w, k), 8, i);
    ShrBit(w, k, i);
  }
}
