/**
 The variable-length 32-bit integer of the wire protocol, with the byte sinks
 and sources it is written to and read from.
 */
module VarInts {
  import opened Bits
  import opened Wrappers

  const TWO32 := 0x1_0000_0000

  type Int32 = x: int | -0x8000_0000 <= x < 0x8000_0000

  datatype ReadError = Eof | Malformed

  /** The 32-bit pattern of `v`, as Go's `uint32(v)`. */
  function ToU32(v: Int32): (u: nat)
    ensures u < TWO32
  {
    if v < 0 then v + TWO32 else v
  }

  /** Go's `int32(x)`: the low 32 bits of `x` read as two's complement. */
  function WrapI32(x: int): (v: Int32)
    ensures (v - x) % TWO32 == 0
    ensures -0x8000_0000 <= x < 0x8000_0000 ==> v == x
  {
    var u := x % TWO32;
    if u < 0x8000_0000 then u else u - TWO32
  }

  class ByteSink {
    var written: seq<Byte>

    constructor ()
      ensures written == []
    {
      written := [];
    }

    method Write(bytes: seq<Byte>)
      modifies this
      ensures written == old(written) + bytes
    {
      written := written + bytes;
    }
  }

  class ByteSource {
    var rest: seq<Byte>

    constructor (bytes: seq<Byte>)
      ensures rest == bytes
    {
      rest := bytes;
    }

    method ReadByte() returns (b: Option<Byte>)
      modifies this
      ensures old(rest) == [] ==> b == None && rest == []
      ensures old(rest) != [] ==> b == Some(old(rest)[0]) && rest == old(rest)[1..]
    {
      if rest == [] {
        return None;
      }
      b := Some(rest[0]);
      rest := rest[1..];
    }

    /** Exactly `n` bytes, or none and the source is drained. */
    method ReadFull(n: nat) returns (bytes: Option<seq<Byte>>)
      modifies this
      ensures |old(rest)| < n ==> bytes == None && rest == []
      ensures |old(rest)| >= n ==> bytes == Some(old(rest)[..n]) && rest == old(rest)[n..]
    {
      if |rest| < n {
        rest := [];
        return None;
      }
      bytes := Some(rest[..n]);
      rest := rest[n..];
    }
  }

  // ----- meaning

  /** Base-128 digits, least significant first, the high bit marking continuation. */
  function EncodeU(u: nat): (s: seq<Byte>)
    ensures |s| >= 1
  {
    if u < 128 then [u] else [u % 128 + 128] + EncodeU(u / 128)
  }

  function Encode(v: Int32): seq<Byte> {
    EncodeU(ToU32(v))
  }

  datatype Decoded = Value(total: nat, used: nat) | Failed(error: ReadError, used: nat)

  /** The number read from at most `limit` bytes of `s`, and how many bytes that took. */
  function DecodeU(s: seq<Byte>, limit: nat): (d: Decoded)
    ensures d.used <= |s| && d.used <= limit
  {
    if limit == 0 then Failed(Malformed, 0)
    else if s == [] then Failed(Eof, 0)
    else if s[0] < 128 then Value(s[0], 1)
    else match DecodeU(s[1..], limit - 1)
      case Value(t, n) => Value(s[0] - 128 + 128 * t, n + 1)
      case Failed(e, n) => Failed(e, n + 1)
  }

  /** What `ReadFrom` returns on input `s`: the total is kept modulo 2^32. */
  function Decode(s: seq<Byte>): Result<Int32, ReadError> {
    match DecodeU(s, 5)
    case Value(t, _) => Ok(WrapI32(t))
    case Failed(e, _) => Err(e)
  }

  function Consumed(s: seq<Byte>): (n: nat)
    ensures n <= |s|
  {
    DecodeU(s, 5).used
  }

  // ----- laws

  lemma {:induction false} DecodeEncodeU(u: nat, limit: nat, tail: seq<Byte>)
    requires |EncodeU(u)| <= limit
    ensures DecodeU(EncodeU(u) + tail, limit) == Value(u, |EncodeU(u)|)
  {
    if u < 128 {
    } else {
      assert (EncodeU(u) + tail)[1..] == EncodeU(u / 128) + tail;
      DecodeEncodeU(u / 128, limit - 1, tail);
    }
  }

  /** 128 to the power `i`. */
  function Power128(i: nat): (p: nat)
    ensures p > 0
  {
    if i == 0 then 1 else 128 * Power128(i - 1)
  }

  lemma DivideAgain(u: nat, p: nat)
    requires p > 0
    ensures u / 128 / p == u / (128 * p)
  {
    var q, r := u / 128 / p, u / 128 % p;
    assert u / 128 == q * p + r;
    assert u == (q * p + r) * 128 + u % 128 == q * (128 * p) + (r * 128 + u % 128);
    QuotientIs(u, 128 * p, q, r * 128 + u % 128);
  }

  lemma QuotientIs(u: nat, p: nat, q: nat, r: nat)
    requires u == q * p + r && r < p
    ensures u / p == q
  {
    DivModUnique(u, p, q, r);
  }

  /** Byte `i` of an encoding is digit `i` of the number to base 128, with 128 added if more follow; none is left. */
  lemma {:induction false} DigitsAre(u: nat, i: nat)
    requires i < |EncodeU(u)|
    ensures EncodeU(u)[i] == u / Power128(i) % 128 + (if i + 1 < |EncodeU(u)| then 128 else 0)
    ensures i + 1 < |EncodeU(u)| <==> u / Power128(i) >= 128
    decreases i
  {
    if i == 0 {
      assert u / Power128(0) == u;
    } else {
      DigitsAre(u / 128, i - 1);
      DivideAgain(u, Power128(i - 1));
    }
  }

  /** The number whose digits to base 128 are the low seven bits of the bytes. */
  function DigitSum(s: seq<Byte>): nat {
    if s == [] then 0 else s[0] % 128 + 128 * DigitSum(s[1..])
  }

  /** A number ends at the first byte below 128, which must come within five; the bytes are its digits modulo 2^32. */
  lemma DecodeIs(s: seq<Byte>, n: nat)
    requires n <= |s| && forall i | 0 <= i < n :: s[i] >= 128
    ensures n < 5 && n < |s| && s[n] < 128 ==> Decode(s) == Ok(WrapI32(DigitSum(s[..n + 1]))) && Consumed(s) == n + 1
    ensures n >= 5 ==> Decode(s) == Err(Malformed) && Consumed(s) == 5
    ensures n < 5 && n == |s| ==> Decode(s) == Err(Eof) && Consumed(s) == n
  {
    DecodeUIs(s, n, 5);
  }

  lemma {:induction false} DecodeUIs(s: seq<Byte>, n: nat, limit: nat)
    requires n <= |s| && forall i | 0 <= i < n :: s[i] >= 128
    ensures n < limit && n < |s| && s[n] < 128 ==> DecodeU(s, limit) == Value(DigitSum(s[..n + 1]), n + 1)
    ensures n >= limit ==> DecodeU(s, limit) == Failed(Malformed, limit)
    ensures n < limit && n == |s| ==> DecodeU(s, limit) == Failed(Eof, n)
    decreases limit
  {
    if limit == 0 || n == 0 {
      if n < |s| { assert s[..1] == [s[0]] && s[..1][1..] == []; }
    } else {
      assert s[1..][..n - 1] == s[1..n];
      DecodeUIs(s[1..], n - 1, limit - 1);
      if n < |s| { assert s[..n + 1][1..] == s[1..][..n]; }
    }
  }

  lemma {:induction false} LengthBound(u: nat, k: nat)
    requires k >= 1
    ensures |EncodeU(u)| <= k <==> u < Pow2(7 * k)
  {
    Pow2Steps(k - 1);
    if k == 1 {
    } else {
      LengthBound(u / 128, k - 1);
    }
  }

  /** Seven more bits are a factor of 128. */
  lemma Pow2Steps(i: nat)
    ensures Pow2(7 * (i + 1)) == 128 * Pow2(7 * i)
  {
    var k := 7 * i;
    assert Pow2(k + 7) == 2 * Pow2(k + 6) == 4 * Pow2(k + 5) == 8 * Pow2(k + 4);
    assert Pow2(k + 4) == 2 * Pow2(k + 3) == 4 * Pow2(k + 2) == 8 * Pow2(k + 1) == 16 * Pow2(k);
  }

  lemma Powers()
    ensures Pow2(7) == 128 && Pow2(28) == 0x1000_0000 && Pow2(32) == TWO32 && Pow2(35) == 0x8_0000_0000
  {
    Pow2Steps(0);
    Pow2Steps(1);
    Pow2Steps(2);
    Pow2Steps(3);
    Pow2Steps(4);
    assert Pow2(32) == 16 * Pow2(28);
  }

  /** Five bytes suffice, and all five are used exactly by the negative numbers and those from 2^28. */
  lemma EncodeLength(v: Int32)
    ensures 1 <= |Encode(v)| <= 5
    ensures |Encode(v)| == 5 <==> v < 0 || v >= 0x1000_0000
    ensures |Encode(v)| == 1 <==> 0 <= v < 128
  {
    var u := ToU32(v);
    Powers();
    LengthBound(u, 1);
    LengthBound(u, 4);
    LengthBound(u, 5);
  }

  /** Reading back what was written gives the number and leaves exactly what followed it. */
  lemma RoundTrip(v: Int32, tail: seq<Byte>)
    ensures Decode(Encode(v) + tail) == Ok(v)
    ensures Consumed(Encode(v) + tail) == |Encode(v)|
    ensures (Encode(v) + tail)[|Encode(v)|..] == tail
  {
    EncodeLength(v);
    DecodeEncodeU(ToU32(v), 5, tail);
  }

  // ----- the implementation

  lemma SevenBits(x: nat)
    ensures And(x, 0x7F) == x % 128
    ensures Shr(x, 7) == x / 128
    ensures x < 128 ==> Or(x, 0x80) == x + 128
  {
    assert Mask(7) == 0x7F && Pow2(7) == 128;
    AndMask(x, 7);
    LowIsMod(x, 7);
    if x < 128 {
      assert Shl(1, 7) == 0x80;
      OrIsPlus(x, 1, 7);
    }
  }

  method Len(v: Int32) returns (n: nat)
    ensures n == |Encode(v)|
  {
    if v < 0 {
      EncodeLength(v);
      return 5;
    }
    var val := ToU32(v);
    n := 1;
    while val >= 0x80
      invariant n + |EncodeU(val)| == 1 + |Encode(v)|
      decreases val
    {
      SevenBits(val);
      val := Shr(val, 7);
      n := n + 1;
    }
  }

  /** One turn of the writer: the low seven bits leave as a byte, flagged if more follow. */
  lemma EncodeStep(u: nat)
    ensures EncodeU(u) ==
            if Shr(u, 7) == 0 then [And(u, 0x7F)] else [Or(And(u, 0x7F), 0x80)] + EncodeU(Shr(u, 7))
    ensures Shr(u, 7) != 0 ==> Shr(u, 7) < u
    ensures And(u, 0x7F) < 128 && Or(And(u, 0x7F), 0x80) < 256
  {
    SevenBits(u);
    SevenBits(u % 128);
  }

  method WriteTo(v: Int32, w: ByteSink)
    modifies w
    ensures w.written == old(w.written) + Encode(v)
  {
    hide *;
    var buf := new Byte[5];
    var i := 0;
    var val := ToU32(v);
    WriteStart(v);
    while true
      invariant 0 <= i < 5 && fresh(buf) && w.written == old(w.written)
      invariant i + |EncodeU(val)| <= 5
      invariant buf[..i] + EncodeU(val) == Encode(v)
      decreases val
    {
      EncodeStep(val);
      ghost var done := buf[..i];
      buf[i] := And(val, 0x7F);
      val := Shr(val, 7);
      if val != 0 {
        buf[i] := Or(buf[i], 0x80);
      }
      i := i + 1;
      assert buf[..i] == done + [buf[i - 1]];
      if val == 0 {
        break;
      }
      Regroup(done, buf[i - 1], EncodeU(val));
    }
    w.Write(buf[..i]);
  }

  lemma Regroup(done: seq<Byte>, b: Byte, rest: seq<Byte>)
    ensures done + [b] + rest == done + ([b] + rest)
  {
  }

  lemma WriteStart(v: Int32)
    ensures Encode(v) == EncodeU(ToU32(v)) && |Encode(v)| <= 5
  {
    EncodeLength(v);
  }

  /** `acc | (b & 0x7F) << pos` on 32-bit words adds the digit, dropping what exceeds the word. */
  lemma AccumulateDigit(total: nat, b: Byte, pos: nat)
    requires total < Pow2(pos)
    ensures Or(Low(total, 32), Low(Shl(And(b, 0x7F), pos), 32)) == Low(total + Shl(b % 128, pos), 32)
  {
    SevenBits(b);
    OrIsPlus(total, b % 128, pos);
    LowOfOr(total, Shl(b % 128, pos), 32);
  }

  lemma AccumulateBound(total: nat, b: Byte, i: nat)
    requires total < Pow2(7 * i)
    ensures total + Shl(b % 128, 7 * i) < Pow2(7 * (i + 1))
  {
    Pow2Steps(i);
    ShlIsTimes(b % 128, 7 * i);
    DigitBound(b % 128, Pow2(7 * i));
  }

  lemma DigitBound(d: nat, p: nat)
    requires d < 128
    ensures d * p + p <= 128 * p
  {
    assert (127 - d) * p >= 0;
  }

  lemma {:induction false} ShlPlus(a: nat, b: nat, i: nat)
    ensures Shl(a + 128 * b, 7 * i) == Shl(a, 7 * i) + Shl(b, 7 * (i + 1))
  {
    ShlIsTimes(a + 128 * b, 7 * i);
    ShlIsTimes(a, 7 * i);
    ShlIsTimes(b, 7 * (i + 1));
    Pow2Steps(i);
    ShiftedSum(a, b, Pow2(7 * i));
  }

  lemma ShiftedSum(a: nat, b: nat, p: nat)
    ensures (a + 128 * b) * p == a * p + b * (128 * p)
  {
  }

  /** After `i` continuation bytes of `s` whose digits sum to `total`, the `rest` decides the outcome. */
  ghost predicate Progress(s: seq<Byte>, i: nat, rest: seq<Byte>, total: nat) {
    && i <= |s| && i <= 5 && rest == s[i..]
    && match DecodeU(rest, 5 - i)
       case Value(t, n) => DecodeU(s, 5) == Value(total + Shl(t, 7 * i), n + i)
       case Failed(e, n) => DecodeU(s, 5) == Failed(e, n + i)
  }

  lemma ProgressStart(s: seq<Byte>)
    ensures Progress(s, 0, s, 0) && Low(0, 32) == 0 < Pow2(0)
  {
    LowOfSmall(0, 32);
    assert s[0..] == s;
  }

  lemma ProgressStep(s: seq<Byte>, i: nat, rest: seq<Byte>, total: nat)
    requires Progress(s, i, rest, total) && i < 5 && rest != [] && rest[0] >= 0x80
    ensures Progress(s, i + 1, rest[1..], total + Shl(rest[0] % 128, 7 * i))
  {
    assert rest[1..] == s[i + 1..];
    var d := DecodeU(rest[1..], 4 - i);
    if d.Value? {
      ShlPlus(rest[0] % 128, d.total, i);
    }
  }

  lemma ProgressFails(s: seq<Byte>, i: nat, rest: seq<Byte>, total: nat)
    requires Progress(s, i, rest, total)
    requires i == 5 || rest == []
    ensures Decode(s) == Err(if i == 5 then Malformed else Eof)
    ensures rest == s[Consumed(s)..]
  {
  }

  lemma ProgressSucceeds(s: seq<Byte>, i: nat, rest: seq<Byte>, total: nat)
    requires Progress(s, i, rest, total)
    requires i < 5 && rest != [] && rest[0] < 0x80
    ensures Decode(s) == Ok(WrapI32(Low(total + Shl(rest[0] % 128, 7 * i), 32)))
    ensures rest[1..] == s[Consumed(s)..]
  {
    WrapIgnoresHighBits(total + Shl(rest[0] % 128, 7 * i));
    assert Shl(rest[0], 7 * i) == Shl(rest[0] % 128, 7 * i);
  }

  lemma WrapIgnoresHighBits(x: nat)
    ensures WrapI32(Low(x, 32)) == WrapI32(x)
  {
    LowIsMod(x, 32);
    Powers();
  }

  method ReadFrom(r: ByteSource) returns (v: Result<Int32, ReadError>)
    modifies r
    ensures v == Decode(old(r.rest))
    ensures r.rest == old(r.rest)[Consumed(old(r.rest))..]
  {
    hide *;
    var acc: nat, position := 0, 0;
    ghost var total: nat, s := 0, r.rest;
    ProgressStart(s);
    for i := 0 to 5
      invariant Progress(s, i, r.rest, total)
      invariant position == 7 * i && total < Pow2(position) && acc == Low(total, 32)
    {
      ghost var before := r.rest;
      var b := r.ReadByte();
      if b.None? {
        ProgressFails(s, i, before, total);
        return Err(Eof);
      }
      AccumulateDigit(total, b.value, position);
      acc := Or(acc, Low(Shl(And(b.value, 0x7F), position), 32));
      if b.value < 0x80 {
        ProgressSucceeds(s, i, before, total);
        return Ok(WrapI32(acc));
      }
      ProgressStep(s, i, before, total);
      AccumulateBound(total, b.value, i);
      total := total + Shl(b.value % 128, position);
      position := position + 7;
    }
    ProgressFails(s, 5, r.rest, total);
    return Err(Malformed);
  }
}
