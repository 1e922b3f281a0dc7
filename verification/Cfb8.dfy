/**
 The stream cipher of an encrypted connection: the 8-bit cipher feedback mode of
 section 6.3 of NIST SP 800-38A, for any block function, kept in a 32-byte ring
 so that the shift register moves without copying at every byte.
 */
module Cfb8 {
  import opened Bits

  const BLOCK := 16

  type Register = r: seq<Byte> | |r| == 16 witness seq(16, _ => 0)
  type BlockCipher = Register -> Register

  // ----- the mode, as the standard defines it

  /** The register loses its oldest byte and takes in one ciphertext byte. */
  function Shift(reg: Register, c: Byte): Register {
    reg[1..] + [c]
  }

  function Combine(e: BlockCipher, reg: Register, b: Byte): Byte {
    XorBytes(b, e(reg)[0]);
    Xor(b, e(reg)[0])
  }

  /** The output for `src`; `decrypt` says which side of the combination is the ciphertext. */
  function Run(e: BlockCipher, decrypt: bool, reg: Register, src: seq<Byte>): (dst: seq<Byte>)
    ensures |dst| == |src|
    decreases |src|
  {
    if src == [] then []
    else
      var out := Combine(e, reg, src[0]);
      [out] + Run(e, decrypt, Shift(reg, if decrypt then src[0] else out), src[1..])
  }

  function Ciphertext(e: BlockCipher, decrypt: bool, reg: Register, src: seq<Byte>): seq<Byte> {
    if decrypt then src else Run(e, decrypt, reg, src)
  }

  /** The register after ciphertext `c`: the last sixteen bytes of what has gone by. */
  function Window(reg: Register, c: seq<Byte>): Register {
    (reg + c)[|c|..]
  }

  // ----- laws

  lemma WindowShift(reg: Register, c: seq<Byte>, b: Byte)
    ensures Shift(Window(reg, c), b) == Window(reg, c + [b])
    ensures Window(Shift(reg, b), c) == Window(reg, [b] + c)
  {
    assert reg + (c + [b]) == (reg + c) + [b];
    assert reg + ([b] + c) == (reg + [b]) + c;
  }

  /** The first byte of a run, with the ciphertext byte `c` that enters the register. */
  lemma FirstByte(e: BlockCipher, decrypt: bool, reg: Register, src: seq<Byte>) returns (out: Byte, c: Byte)
    requires src != []
    ensures out == Combine(e, reg, src[0]) && c == if decrypt then src[0] else out
    ensures Run(e, decrypt, reg, src) == [out] + Run(e, decrypt, Shift(reg, c), src[1..])
    ensures Ciphertext(e, decrypt, reg, src) == [c] + Ciphertext(e, decrypt, Shift(reg, c), src[1..])
  {
    out := Combine(e, reg, src[0]);
    c := if decrypt then src[0] else out;
  }

  lemma Joined(b: Byte, x: seq<Byte>, y: seq<Byte>)
    ensures [b] + (x + y) == [b] + x + y
  {
  }

  /** Bytes already processed matter to the rest only through the register they leave. */
  lemma {:induction false} Chunking(e: BlockCipher, decrypt: bool, reg: Register, a: seq<Byte>, b: seq<Byte>)
    ensures Run(e, decrypt, reg, a + b)
            == Run(e, decrypt, reg, a) + Run(e, decrypt, Window(reg, Ciphertext(e, decrypt, reg, a)), b)
    decreases |a|
  {
    hide Combine, Shift;
    if a == [] {
      assert a + b == b;
      assert Window(reg, []) == reg;
    } else {
      hide Run, Ciphertext, Window;
      var out, c := FirstByte(e, decrypt, reg, a);
      var _, _ := FirstByte(e, decrypt, reg, a + b);
      var next := Shift(reg, c);
      assert (a + b)[1..] == a[1..] + b;
      Chunking(e, decrypt, next, a[1..], b);
      var gone := Ciphertext(e, decrypt, next, a[1..]);
      WindowShift(reg, gone, c);
      Joined(out, Run(e, decrypt, next, a[1..]), Run(e, decrypt, Window(next, gone), b));
    }
  }

  /**
   The mode without its recursion: byte `i` of the output is byte `i` of the input combined,
   bit by bit, with the first byte of the block function on the sixteen bytes that precede
   ciphertext byte `i`, the initial register coming before the ciphertext.
   */
  lemma ModeIs(e: BlockCipher, decrypt: bool, reg: Register, src: seq<Byte>, i: nat, k: nat)
    requires i < |src|
    ensures var dst := Run(e, decrypt, reg, src);
            var ciphertext := if decrypt then src else dst;
            Bit(dst[i], k) == (Bit(src[i], k) != Bit(e((reg + ciphertext)[i..i + 16])[0], k))
  {
    hide Bit, Xor;
    var c := Ciphertext(e, decrypt, reg, src);
    RunAt(e, decrypt, reg, src, i);
    assert (reg + c)[i..i + 16] == Window(reg, c[..i]) by {
      assert (reg + c)[..i + 16] == reg + c[..i];
    }
    XorBit(src[i], e(Window(reg, c[..i]))[0], k);
  }

  lemma {:induction false} RunAt(e: BlockCipher, decrypt: bool, reg: Register, src: seq<Byte>, i: nat)
    requires i < |src|
    ensures |Ciphertext(e, decrypt, reg, src)| == |src|
    ensures Run(e, decrypt, reg, src)[i]
            == Combine(e, Window(reg, Ciphertext(e, decrypt, reg, src)[..i]), src[i])
    decreases i
  {
    hide Combine, Shift;
    var out, c := FirstByte(e, decrypt, reg, src);
    var all := Ciphertext(e, decrypt, reg, src);
    if i == 0 {
      assert Window(reg, all[..0]) == reg;
    } else {
      RunAt(e, decrypt, Shift(reg, c), src[1..], i - 1);
      var tail := Ciphertext(e, decrypt, Shift(reg, c), src[1..]);
      WindowShift(reg, tail[..i - 1], c);
      assert all[..i] == [c] + tail[..i - 1];
    }
  }

  /** Decryption undoes encryption and encryption undoes decryption, from the same register. */
  lemma {:induction false} Inverse(e: BlockCipher, decrypt: bool, reg: Register, src: seq<Byte>)
    ensures Run(e, !decrypt, reg, Run(e, decrypt, reg, src)) == src
    decreases |src|
  {
    if src == [] {
    } else {
      XorBytes(src[0], e(reg)[0]);
      var out := Combine(e, reg, src[0]);
      var next := Shift(reg, if decrypt then src[0] else out);
      Inverse(e, decrypt, next, src[1..]);
      assert Run(e, decrypt, reg, src)[1..] == Run(e, decrypt, next, src[1..]);
      assert [src[0]] + src[1..] == src;
    }
  }

  function Flatten(chunks: seq<seq<Byte>>): seq<Byte> {
    if chunks == [] then [] else chunks[0] + Flatten(chunks[1..])
  }

  /** One cipher state fed chunk after chunk. */
  function RunChunks(e: BlockCipher, decrypt: bool, reg: Register, chunks: seq<seq<Byte>>): seq<seq<Byte>>
    decreases |chunks|
  {
    if chunks == [] then []
    else
      [Run(e, decrypt, reg, chunks[0])]
      + RunChunks(e, decrypt, Window(reg, Ciphertext(e, decrypt, reg, chunks[0])), chunks[1..])
  }

  lemma {:induction false} AnyChunking(e: BlockCipher, decrypt: bool, reg: Register, chunks: seq<seq<Byte>>)
    ensures Flatten(RunChunks(e, decrypt, reg, chunks)) == Run(e, decrypt, reg, Flatten(chunks))
    decreases |chunks|
  {
    if chunks == [] {
    } else {
      var next := Window(reg, Ciphertext(e, decrypt, reg, chunks[0]));
      AnyChunking(e, decrypt, next, chunks[1..]);
      Chunking(e, decrypt, reg, chunks[0], Flatten(chunks[1..]));
      assert RunChunks(e, decrypt, reg, chunks)[1..] == RunChunks(e, decrypt, next, chunks[1..]);
    }
  }

  /** However the sender splits its writes and the receiver its reads, the plaintext arrives. */
  lemma SessionRoundTrip(e: BlockCipher, iv: Register, sent: seq<seq<Byte>>, got: seq<seq<Byte>>)
    requires Flatten(got) == Flatten(RunChunks(e, false, iv, sent))
    ensures Flatten(RunChunks(e, true, iv, got)) == Flatten(sent)
  {
    AnyChunking(e, false, iv, sent);
    AnyChunking(e, true, iv, got);
    Inverse(e, false, iv, Flatten(sent));
  }

  lemma RunSnoc(e: BlockCipher, decrypt: bool, reg: Register, a: seq<Byte>, b: Byte)
    ensures var w := Window(reg, Ciphertext(e, decrypt, reg, a));
            && Run(e, decrypt, reg, a + [b]) == Run(e, decrypt, reg, a) + [Combine(e, w, b)]
            && Window(reg, Ciphertext(e, decrypt, reg, a + [b]))
               == Shift(w, if decrypt then b else Combine(e, w, b))
  {
    var w := Window(reg, Ciphertext(e, decrypt, reg, a));
    Chunking(e, decrypt, reg, a, [b]);
    assert Run(e, decrypt, w, [b]) == [Combine(e, w, b)];
    var c := if decrypt then b else Combine(e, w, b);
    WindowShift(reg, Ciphertext(e, decrypt, reg, a), c);
    assert Ciphertext(e, decrypt, reg, a + [b]) == Ciphertext(e, decrypt, reg, a) + [c];
  }

  // ----- the implementation

  class Stream {
    const block: BlockCipher
    const ring: array<Byte>
    var pos: nat
    const decrypt: bool

    ghost predicate Valid()
      reads this, ring
    {
      ring.Length == 2 * BLOCK && pos < BLOCK
    }

    ghost function Reg(): Register
      reads this, ring
      requires Valid()
    {
      ring[pos..pos + BLOCK]
    }

    constructor (block: BlockCipher, iv: seq<Byte>, decrypt: bool)
      requires BLOCK <= |iv| <= 2 * BLOCK
      ensures Valid() && fresh(ring)
      ensures this.block == block && this.decrypt == decrypt
      ensures Reg() == iv[..BLOCK]
    {
      this.block := block;
      this.decrypt := decrypt;
      pos := 0;
      ring := new Byte[2 * BLOCK](i => if 0 <= i < |iv| then iv[i] else 0);
      new;
      assert ring[0..BLOCK] == iv[..BLOCK];
    }

    /** One byte through the cipher: the body of the stream's loop but for the buffers. */
    method Step(b: Byte) returns (val: Byte)
      requires Valid()
      modifies this, ring
      ensures Valid()
      ensures val == Combine(block, old(Reg()), b)
      ensures Reg() == Shift(old(Reg()), if decrypt then b else val)
    {
      ghost var window := Reg();
      var mask := block(ring[pos..pos + BLOCK])[0];
      XorBytes(b, mask);
      val := Xor(b, mask);
      if decrypt {
        ring[pos + BLOCK] := Xor(val, mask);
      } else {
        ring[pos + BLOCK] := val;
      }
      pos := pos + 1;
      assert ring[pos..pos + BLOCK] == Shift(window, if decrypt then b else val);
      if pos == BLOCK {
        ghost var upper := ring[BLOCK..2 * BLOCK];
        forall k | 0 <= k < BLOCK {
          ring[k] := ring[BLOCK + k];
        }
        assert ring[0..BLOCK] == upper;
        pos := 0;
      }
    }

    /**
     Processes the first `n` bytes of `src` into `dst`, which may be the same
     array. The register moves on exactly as the mode prescribes.
     */
    method XORKeyStream(dst: array<Byte>, src: array<Byte>, n: nat)
      requires Valid()
      requires n <= dst.Length && n <= src.Length
      requires dst != ring && src != ring
      modifies this, ring, dst
      ensures Valid()
      ensures dst[..n] == Run(block, decrypt, old(Reg()), old(src[..n]))
      ensures dst[n..] == old(dst[n..])
      ensures Reg() == Window(old(Reg()), Ciphertext(block, decrypt, old(Reg()), old(src[..n])))
    {
      hide Run, Ciphertext, Window, Shift, Combine;
      ghost var reg, s := Reg(), src[..n];
      StartOfRun(block, decrypt, reg, s);
      for i := 0 to n
        invariant Valid()
        invariant forall k | i <= k < n :: src[k] == s[k]
        invariant dst[..i] == Run(block, decrypt, reg, s[..i])
        invariant dst[n..] == old(dst[n..])
        invariant Reg() == Window(reg, Ciphertext(block, decrypt, reg, s[..i]))
      {
        RunSnoc(block, decrypt, reg, s[..i], s[i]);
        assert s[..i + 1] == s[..i] + [s[i]];
        ghost var done := dst[..i];
        var val := Step(src[i]);
        dst[i] := val;
        assert dst[..i + 1] == done + [val];
      }
      assert s[..n] == s;
    }
  }

  lemma StartOfRun(e: BlockCipher, decrypt: bool, reg: Register, s: seq<Byte>)
    ensures Run(e, decrypt, reg, s[..0]) == []
    ensures Window(reg, Ciphertext(e, decrypt, reg, s[..0])) == reg
  {
  }

  /**
   Both directions of an encrypted connection. `wire` is what the underlying
   connection has accepted; the ghost fields record the history of each side.
   */
  class EncryptedConn {
    const encrypter: Stream
    const decrypter: Stream
    var writeBuf: array<Byte>
    var wire: seq<Byte>
    ghost const iv: Register
    ghost var written: seq<Byte>
    ghost var received: seq<Byte>
    ghost var delivered: seq<Byte>

    ghost predicate Valid()
      reads this, encrypter, encrypter.ring, decrypter, decrypter.ring
    {
      && encrypter != decrypter && encrypter.ring != decrypter.ring
      && writeBuf != encrypter.ring && writeBuf != decrypter.ring
      && encrypter.Valid() && decrypter.Valid()
      && encrypter.block == decrypter.block
      && !encrypter.decrypt && decrypter.decrypt
      && wire == Run(encrypter.block, false, iv, written)
      && encrypter.Reg() == Window(iv, wire)
      && delivered == Run(decrypter.block, true, iv, received)
      && decrypter.Reg() == Window(iv, received)
    }

    constructor (block: BlockCipher, sharedSecret: seq<Byte>)
      requires BLOCK <= |sharedSecret| <= 2 * BLOCK
      ensures Valid() && iv == sharedSecret[..BLOCK] && encrypter.block == block
      ensures fresh(encrypter) && fresh(encrypter.ring) && fresh(decrypter) && fresh(decrypter.ring)
      ensures fresh(writeBuf)
      ensures written == [] && received == []
    {
      var e := new Stream(block, sharedSecret, false);
      var d := new Stream(block, sharedSecret, true);
      encrypter := e;
      decrypter := d;
      writeBuf := new Byte[4096](_ => 0);
      wire, written, received, delivered := [], [], [], [];
      iv := sharedSecret[..BLOCK];
    }

    /** Encrypts through the connection's own buffer: the caller's bytes are left alone. */
    method Write(p: array<Byte>)
      requires Valid()
      requires p != writeBuf && p != encrypter.ring && p != decrypter.ring
      modifies this, writeBuf, encrypter, encrypter.ring
      ensures Valid()
      ensures written == old(written) + p[..]
      ensures old(wire) <= wire
      ensures received == old(received) && delivered == old(delivered)
      ensures writeBuf == old(writeBuf) || fresh(writeBuf)
    {
      hide Run, Ciphertext, Window, Shift, Combine;
      if p.Length > writeBuf.Length {
        writeBuf := new Byte[p.Length](_ => 0);
      }
      forall k | 0 <= k < p.Length {
        writeBuf[k] := p[k];
      }
      assert writeBuf[..p.Length] == p[..];
      encrypter.XORKeyStream(writeBuf, writeBuf, p.Length);
      ExtendSent(encrypter.block, iv, written, p[..]);
      wire := wire + writeBuf[..p.Length];
      written := written + p[..];
    }

    /** Encrypts in the caller's own buffer. */
    method WriteInPlace(p: array<Byte>)
      requires Valid()
      requires p != encrypter.ring && p != decrypter.ring
      modifies this`wire, this`written, p, encrypter, encrypter.ring
      ensures Valid()
      ensures written == old(written) + old(p[..])
      ensures wire == old(wire) + p[..]
      ensures received == old(received) && delivered == old(delivered)
    {
      hide Run, Ciphertext, Window, Shift, Combine;
      assert p[..p.Length] == p[..];
      ExtendSent(encrypter.block, iv, written, p[..]);
      encrypter.XORKeyStream(p, p, p.Length);
      assert p[..p.Length] == p[..];
      wire := wire + p[..];
      written := written + old(p[..]);
    }

    /** The underlying connection put `arrived` at the start of `p`; it is decrypted there. */
    method Read(p: array<Byte>, arrived: seq<Byte>) returns (n: nat)
      requires Valid()
      requires p != encrypter.ring && p != decrypter.ring
      requires |arrived| <= p.Length
      modifies this`received, this`delivered, p, decrypter, decrypter.ring
      ensures Valid()
      ensures n == |arrived|
      ensures received == old(received) + arrived
      ensures delivered == old(delivered) + p[..n]
      ensures p[n..] == old(p[n..])
      ensures written == old(written) && wire == old(wire)
    {
      hide Run, Ciphertext, Window, Shift, Combine;
      n := |arrived|;
      ExtendReceived(decrypter.block, iv, received, arrived);
      forall k | 0 <= k < n {
        p[k] := arrived[k];
      }
      assert p[..n] == arrived;
      if n > 0 {
        decrypter.XORKeyStream(p, p, n);
      }
      received := received + arrived;
      delivered := delivered + p[..n];
    }
  }

  lemma Extend(e: BlockCipher, decrypt: bool, iv: Register, before: seq<Byte>, more: seq<Byte>)
    ensures var reg := Window(iv, Ciphertext(e, decrypt, iv, before));
            && Run(e, decrypt, iv, before + more) == Run(e, decrypt, iv, before) + Run(e, decrypt, reg, more)
            && Window(iv, Ciphertext(e, decrypt, iv, before + more))
               == Window(reg, Ciphertext(e, decrypt, reg, more))
  {
    var reg := Window(iv, Ciphertext(e, decrypt, iv, before));
    Chunking(e, decrypt, iv, before, more);
    var a, b := Ciphertext(e, decrypt, iv, before), Ciphertext(e, decrypt, reg, more);
    assert Ciphertext(e, decrypt, iv, before + more) == a + b;
    assert (iv + a) + b == iv + (a + b);
  }

  lemma ExtendSent(e: BlockCipher, iv: Register, before: seq<Byte>, more: seq<Byte>)
    ensures var reg := Window(iv, Run(e, false, iv, before));
            && Run(e, false, iv, before + more) == Run(e, false, iv, before) + Run(e, false, reg, more)
            && Window(iv, Run(e, false, iv, before + more)) == Window(reg, Ciphertext(e, false, reg, more))
  {
    Extend(e, false, iv, before, more);
  }

  lemma ExtendReceived(e: BlockCipher, iv: Register, before: seq<Byte>, more: seq<Byte>)
    ensures var reg := Window(iv, before);
            && Run(e, true, iv, before + more) == Run(e, true, iv, before) + Run(e, true, reg, more)
            && Window(iv, before + more) == Window(reg, Ciphertext(e, true, reg, more))
            && (more == [] ==> Run(e, true, reg, more) == [] && Window(reg, more) == reg && before + more == before)
  {
    Extend(e, true, iv, before, more);
    assert iv + [] == iv;
  }

  /** Whatever prefix of a ciphertext has arrived decrypts to the same prefix of the plaintext. */
  lemma PrefixDelivered(e: BlockCipher, iv: Register, plain: seq<Byte>, arrived: seq<Byte>)
    requires arrived <= Run(e, false, iv, plain)
    ensures Run(e, true, iv, arrived) == plain[..|arrived|]
  {
    hide *;
    var wire := Run(e, false, iv, plain);
    Inverse(e, false, iv, plain);
    Chunking(e, true, iv, arrived, wire[|arrived|..]);
    assert arrived + wire[|arrived|..] == wire;
  }

  /** Two ends with the same key: each delivers, of what the other wrote, the part that has reached it. */
  lemma EndToEnd(a: EncryptedConn, b: EncryptedConn)
    requires a.Valid() && b.Valid()
    requires a.iv == b.iv && a.encrypter.block == b.encrypter.block
    requires b.received <= a.wire
    ensures |b.received| <= |a.written| && b.delivered == a.written[..|b.received|]
  {
    hide Ciphertext, Window, Shift, Combine;
    PrefixDelivered(a.encrypter.block, a.iv, a.written, b.received);
  }
}
