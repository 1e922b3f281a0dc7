/**
 Length-prefixed, optionally compressed packet framing. The compressor is a
 parameter: any pair of functions of which the second undoes the first.
 */
module Packets {
  import opened Bits
  import opened Wrappers
  import opened VarInts

  const MAX_UNCOMPRESSED_SIZE := 8388608
  const MAX_FRAME_SIZE := MAX_UNCOMPRESSED_SIZE + 512

  datatype Packet = Packet(id: Int32, payload: seq<Byte>)

  datatype Zlib = Zlib(deflate: seq<Byte> -> seq<Byte>, inflate: seq<Byte> -> Option<seq<Byte>>)

  ghost predicate Invertible(z: Zlib) {
    forall b: seq<Byte> :: z.inflate(z.deflate(b)) == Some(b)
  }

  datatype SendError = ExceedsProtocolLimit

  datatype ReceiveError =
    | FrameLengthUnreadable(e: ReadError)
    | InvalidFrameLength(n: int)
    | FrameBodyShort
    | DataLengthUnreadable(e: ReadError)
    | UncompressedTooLarge(n: int)
    | BelowThreshold(n: int)
    | CorruptCompressedData
    | PacketIdUnreadable(e: ReadError)

  // ----- what is on the wire

  function Body(p: Packet): seq<Byte> {
    Encode(p.id) + p.payload
  }

  predicate Compressed(p: Packet, threshold: int) {
    threshold >= 0 && |Body(p)| >= threshold
  }

  /** What follows the frame length. */
  function Content(p: Packet, threshold: int, z: Zlib): seq<Byte> {
    if Compressed(p, threshold) then Encode(WrapI32(|Body(p)|)) + z.deflate(Body(p))
    else if threshold >= 0 then Encode(0) + Body(p)
    else Body(p)
  }

  predicate Sendable(p: Packet) {
    |Body(p)| <= MAX_UNCOMPRESSED_SIZE
  }

  function Frame(p: Packet, threshold: int, z: Zlib): seq<Byte> {
    Encode(WrapI32(|Content(p, threshold, z)|)) + Content(p, threshold, z)
  }

  // ----- what a reader makes of a byte stream

  /** The packet in `body`, the frame's content once decompressed. */
  function ParseBody(body: seq<Byte>): Result<Packet, ReceiveError> {
    match Decode(body)
    case Err(e) => Err(PacketIdUnreadable(e))
    case Ok(id) => Ok(Packet(id, body[Consumed(body)..]))
  }

  function ParseContent(raw: seq<Byte>, threshold: int, z: Zlib): Result<Packet, ReceiveError> {
    if threshold < 0 then ParseBody(raw)
    else match Decode(raw)
      case Err(e) => Err(DataLengthUnreadable(e))
      case Ok(n) =>
        var data := raw[Consumed(raw)..];
        if n == 0 then ParseBody(data)
        else if n > MAX_UNCOMPRESSED_SIZE then Err(UncompressedTooLarge(n))
        else if n < threshold then Err(BelowThreshold(n))
        else match z.inflate(data)
          case None => Err(CorruptCompressedData)
          case Some(body) => ParseBody(body)
  }

  /** One packet read from `s`, and what is left of the stream. */
  function Take(s: seq<Byte>, threshold: int, z: Zlib): (r: (Result<Packet, ReceiveError>, seq<Byte>))
    ensures |r.1| <= |s|
  {
    var after := s[Consumed(s)..];
    match Decode(s)
    case Err(e) => (Err(FrameLengthUnreadable(e)), after)
    case Ok(n) =>
      if n > MAX_FRAME_SIZE || n < 0 then (Err(InvalidFrameLength(n)), after)
      else if |after| < n then (Err(FrameBodyShort), [])
      else (ParseContent(after[..n], threshold, z), after[n..])
  }

  // ----- laws

  lemma BodyRoundTrip(p: Packet)
    ensures ParseBody(Body(p)) == Ok(p)
  {
    RoundTrip(p.id, p.payload);
  }

  lemma ContentRoundTrip(p: Packet, threshold: int, z: Zlib)
    requires Invertible(z) && Sendable(p)
    ensures ParseContent(Content(p, threshold, z), threshold, z) == Ok(p)
  {
    BodyRoundTrip(p);
    if Compressed(p, threshold) {
      RoundTrip(|Body(p)|, z.deflate(Body(p)));
    } else if threshold >= 0 {
      RoundTrip(0, Body(p));
    }
  }

  /** Only compression can make a sendable packet's frame too long to be received. */
  lemma UncompressedFits(p: Packet, threshold: int, z: Zlib)
    requires Sendable(p) && !Compressed(p, threshold)
    ensures |Content(p, threshold, z)| <= MAX_FRAME_SIZE
  {
    EncodeLength(0);
  }

  /**
   A framed packet is read back exactly, and nothing after it is touched, if and
   only if its frame fits the receiver's limit. The sender does not check that limit.
   */
  lemma FrameRoundTrip(p: Packet, threshold: int, z: Zlib, tail: seq<Byte>)
    requires Invertible(z) && Sendable(p)
    ensures Take(Frame(p, threshold, z) + tail, threshold, z) == (Ok(p), tail)
            <==> |Content(p, threshold, z)| <= MAX_FRAME_SIZE
  {
    var c := Content(p, threshold, z);
    var n := WrapI32(|c|);
    var s := Frame(p, threshold, z) + tail;
    assert s == Encode(n) + (c + tail);
    RoundTrip(n, c + tail);
    if |c| <= MAX_FRAME_SIZE {
      assert (c + tail)[..n] == c && (c + tail)[n..] == tail;
      ContentRoundTrip(p, threshold, z);
    } else {
      hide ParseContent, Content;
      WrapsBelow(|c|);
      if 0 <= n <= MAX_FRAME_SIZE { assert |(c + tail)[n..]| > |tail|; }
    }
  }

  /** A length that does not fit 32 bits is announced as a smaller one. */
  lemma WrapsBelow(n: nat)
    requires n > MAX_FRAME_SIZE
    ensures WrapI32(n) <= n && (WrapI32(n) == n ==> n > MAX_FRAME_SIZE)
  {
  }

  /**
   A frame is accepted if and only if its length is readable and within 8389120, all of it is
   there, what it holds is announced as at most 8388608 bytes and no less than the threshold
   if compressed, and the packet id can be read.
   */
  lemma AcceptedIff(s: seq<Byte>, threshold: int, z: Zlib)
    ensures Take(s, threshold, z).0.Ok? <==>
            && Decode(s).Ok? && 0 <= Decode(s).value <= 8389120
            && var rest := s[Consumed(s)..];
               && Decode(s).value <= |rest|
               && var raw := rest[..Decode(s).value];
                  if threshold < 0 then Decode(raw).Ok?
                  else
                    && Decode(raw).Ok?
                    && var data := raw[Consumed(raw)..];
                       if Decode(raw).value == 0 then Decode(data).Ok?
                       else
                         && threshold <= Decode(raw).value <= 8388608
                         && z.inflate(data).Some? && Decode(z.inflate(data).value).Ok?
  {
    hide Decode, Consumed;
  }

  /** Only what exceeds 8388608 bytes, id included, is refused by the sender. */
  lemma SendableIff(p: Packet)
    ensures Sendable(p) <==> |Encode(p.id)| + |p.payload| <= 8388608
  {
  }

  function Zeros(): (s: seq<Byte>)
    ensures |s| == MAX_FRAME_SIZE
  {
    seq(MAX_FRAME_SIZE, _ => 0)
  }

  /** A compressor that only makes things longer. */
  function Padding(): Zlib {
    Zlib(b => b + Zeros(), s => if |s| < MAX_FRAME_SIZE then None else Some(s[..|s| - MAX_FRAME_SIZE]))
  }

  /** With it even an empty packet is sent and not received. */
  lemma PaddedFrameTooLong(tail: seq<Byte>)
    ensures var p, z := Packet(0, []), Padding();
            Invertible(z) && Sendable(p) && Take(Frame(p, 0, z) + tail, 0, z) != (Ok(p), tail)
  {
    hide Zeros;
    var p, z := Packet(0, []), Padding();
    forall b: seq<Byte> ensures z.inflate(z.deflate(b)) == Some(b) {
      assert (b + Zeros())[..|b|] == b;
    }
    EncodeLength(0);
    EncodeLength(WrapI32(|Body(p)|));
    FrameRoundTrip(p, 0, z, tail);
  }

  function Stream(ps: seq<Packet>, threshold: int, z: Zlib): seq<Byte> {
    if ps == [] then [] else Frame(ps[0], threshold, z) + Stream(ps[1..], threshold, z)
  }

  /** `n` receives in a row on `s`: the packets read, or the first failure. */
  function TakeMany(s: seq<Byte>, n: nat, threshold: int, z: Zlib): Result<(seq<Packet>, seq<Byte>), ReceiveError>
    decreases n
  {
    if n == 0 then Ok(([], s))
    else
      var (first, rest) := Take(s, threshold, z);
      match first
      case Err(e) => Err(e)
      case Ok(p) =>
        match TakeMany(rest, n - 1, threshold, z)
        case Err(e) => Err(e)
        case Ok((ps, left)) => Ok(([p] + ps, left))
  }

  /** Any run of sends, concatenated on the wire, is received as the same run of packets. */
  lemma {:induction false} StreamRoundTrip(ps: seq<Packet>, threshold: int, z: Zlib, tail: seq<Byte>)
    requires Invertible(z)
    requires forall i | 0 <= i < |ps| :: Sendable(ps[i]) && |Content(ps[i], threshold, z)| <= MAX_FRAME_SIZE
    ensures TakeMany(Stream(ps, threshold, z) + tail, |ps|, threshold, z) == Ok((ps, tail))
  {
    if ps == [] {
      assert Stream(ps, threshold, z) + tail == tail;
    } else {
      var rest := Stream(ps[1..], threshold, z) + tail;
      assert Stream(ps, threshold, z) + tail == Frame(ps[0], threshold, z) + rest;
      FrameRoundTrip(ps[0], threshold, z, rest);
      StreamRoundTrip(ps[1..], threshold, z, tail);
      assert [ps[0]] + ps[1..] == ps;
    }
  }

  // ----- the implementation

  lemma FrameLayout(p: Packet, threshold: int, z: Zlib)
    ensures |Body(p)| == |Encode(p.id)| + |p.payload| && Body(p) == Encode(p.id) + p.payload
    ensures Sendable(p) <==> |Body(p)| <= MAX_UNCOMPRESSED_SIZE
    ensures Compressed(p, threshold) <==> threshold >= 0 && |Body(p)| >= threshold
    ensures Compressed(p, threshold) ==>
              var n, data := Encode(WrapI32(|Body(p)|)), z.deflate(Body(p));
              Frame(p, threshold, z) == Encode(WrapI32(|n| + |data|)) + n + data
    ensures !Compressed(p, threshold) && threshold >= 0 ==>
              Frame(p, threshold, z) ==
              Encode(WrapI32(|Body(p)| + |Encode(0)|)) + Encode(0) + Encode(p.id) + p.payload
    ensures threshold < 0 ==>
              Frame(p, threshold, z) == Encode(WrapI32(|Body(p)|)) + Encode(p.id) + p.payload
  {
    hide Encode, WrapI32;
    var body := Body(p);
    assert Encode(0) + body == Encode(0) + Encode(p.id) + p.payload;
  }

  method WriteFramedPacket(conn: ByteSink, id: Int32, payload: seq<Byte>, threshold: int, z: Zlib)
    returns (err: Option<SendError>)
    modifies conn
    ensures var p := Packet(id, payload);
            if Sendable(p) then err == None && conn.written == old(conn.written) + Frame(p, threshold, z)
            else err == Some(ExceedsProtocolLimit) && conn.written == old(conn.written)
  {
    hide *;
    FrameLayout(Packet(id, payload), threshold, z);
    var frame := new ByteSink();
    var idLength := Len(id);
    var uncompressedSize := idLength + |payload|;
    if uncompressedSize > MAX_UNCOMPRESSED_SIZE {
      return Some(ExceedsProtocolLimit);
    }
    if threshold >= 0 && uncompressedSize >= threshold {
      var dataLength := WrapI32(uncompressedSize);
      var plain := new ByteSink();
      WriteTo(id, plain);
      plain.Write(payload);
      assert plain.written == Body(Packet(id, payload));
      var compressed := z.deflate(plain.written);
      var dataLengthSize := Len(dataLength);
      WriteTo(WrapI32(dataLengthSize + |compressed|), frame);
      WriteTo(dataLength, frame);
      frame.Write(compressed);
    } else {
      var packetLengthValue := uncompressedSize;
      if threshold >= 0 {
        var zeroLength := Len(0);
        packetLengthValue := packetLengthValue + zeroLength;
      }
      WriteTo(WrapI32(packetLengthValue), frame);
      if threshold >= 0 {
        WriteTo(0, frame);
      }
      WriteTo(id, frame);
      frame.Write(payload);
    }
    conn.Write(frame.written);
    return None;
  }

  method Receive(conn: ByteSource, threshold: int, z: Zlib) returns (r: Result<Packet, ReceiveError>)
    modifies conn
    ensures (r, conn.rest) == Take(old(conn.rest), threshold, z)
  {
    var frameLength := ReadFrom(conn);
    if frameLength.Err? {
      return Err(FrameLengthUnreadable(frameLength.error));
    }
    var n := frameLength.value;
    if n > MAX_FRAME_SIZE || n < 0 {
      return Err(InvalidFrameLength(n));
    }
    var raw := conn.ReadFull(n);
    if raw.None? {
      return Err(FrameBodyShort);
    }
    var rawBuf := new ByteSource(raw.value);
    var bodyBuf := rawBuf;
    if threshold >= 0 {
      var dataLength := ReadFrom(rawBuf);
      if dataLength.Err? {
        return Err(DataLengthUnreadable(dataLength.error));
      }
      if dataLength.value != 0 {
        if dataLength.value > MAX_UNCOMPRESSED_SIZE {
          return Err(UncompressedTooLarge(dataLength.value));
        }
        if dataLength.value < threshold {
          return Err(BelowThreshold(dataLength.value));
        }
        var plain := z.inflate(rawBuf.rest);
        if plain.None? {
          return Err(CorruptCompressedData);
        }
        bodyBuf := new ByteSource(plain.value);
      }
    }
    var packetID := ReadFrom(bodyBuf);
    if packetID.Err? {
      return Err(PacketIdUnreadable(packetID.error));
    }
    return Ok(Packet(packetID.value, bodyBuf.rest));
  }
}
