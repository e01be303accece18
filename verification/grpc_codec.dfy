/**
 * The gRPC message framing of the protobuf codec (`grpcCodec`).
 *
 * Every message travels as a Length-Prefixed-Message (gRPC over HTTP/2,
 * "Requests"): a one-byte compressed flag, here always 0, then the payload
 * length as a four-byte big-endian unsigned integer, then the payload.
 * Encoding writes the payload first and the header second, through a frame
 * writer; decoding reads five header bytes, then exactly as many payload
 * bytes as the header announces. Serialisation itself is opaque: the model
 * sees only the bytes, or the error, a serializer produces.
 */
module GrpcCodec {
  import opened Common

  const HeaderLen: nat := 5

  /** `binary.BigEndian.PutUint32`: four bytes, most significant first (shifts by 24, 16, 8 and 0 bits). */
  function EncodeUint32(n: nat): (bs: seq<byte>)
    requires n < Uint32Modulus
    ensures |bs| == 4
  {
    var n1 := n / 0x100;
    var n2 := n1 / 0x100;
    [(n2 / 0x100) as byte, (n2 % 0x100) as byte, (n1 % 0x100) as byte, (n % 0x100) as byte]
  }

  /** `binary.BigEndian.Uint32`: the value of four bytes, most significant first. */
  function DecodeUint32(bs: seq<byte>): (n: nat)
    requires |bs| == 4
    ensures n < Uint32Modulus
  {
    ((bs[0] as nat * 0x100 + bs[1] as nat) * 0x100 + bs[2] as nat) * 0x100 + bs[3] as nat
  }

  /** Decoding an encoded length gives it back. */
  lemma DecodeEncodeUint32(n: nat)
    requires n < Uint32Modulus
    ensures DecodeUint32(EncodeUint32(n)) == n
  {
    var n1 := n / 0x100;
    var n2 := n1 / 0x100;
    var bs := EncodeUint32(n);
    assert bs[3] as nat == n % 0x100 && bs[2] as nat == n1 % 0x100;
    assert bs[1] as nat == n2 % 0x100 && bs[0] as nat == n2 / 0x100;
    assert bs[0] as nat * 0x100 + bs[1] as nat == n2;
    assert n2 * 0x100 + bs[2] as nat == n1;
    assert n1 * 0x100 + bs[3] as nat == n;
  }

  /** Encoding a decoded length gives back the four bytes: the header field has no slack. */
  lemma EncodeDecodeUint32(bs: seq<byte>)
    requires |bs| == 4
    ensures EncodeUint32(DecodeUint32(bs)) == bs
  {
    var a, b, c, d := bs[0] as nat, bs[1] as nat, bs[2] as nat, bs[3] as nat;
    var n := DecodeUint32(bs);
    DivModStep((a * 0x100 + b) * 0x100 + c, d);
    DivModStep(a * 0x100 + b, c);
    DivModStep(a, b);
    assert a / 0x100 == 0 && a % 0x100 == a;
  }

  lemma DivModStep(hi: nat, lo: nat)
    requires lo < 0x100
    ensures (hi * 0x100 + lo) / 0x100 == hi && (hi * 0x100 + lo) % 0x100 == lo
  {}

  /** The five-byte header for a payload of `len` bytes: flag 0, then `uint32(len)` big-endian. */
  function Header(len: nat): (h: seq<byte>)
    ensures |h| == HeaderLen && h[0] == 0
    ensures h[1..] == EncodeUint32(len % Uint32Modulus)
  {
    [0] + EncodeUint32(len % Uint32Modulus)
  }

  /** The serializers the codec recognises, in the order its type switch tries them. */
  datatype Serializer = GogoMarshaler | ProtobufV2 | ProtoMessage | ProtobufMsgCodec

  /**
   * A message's data as the codec's type switch sees it: a fast writer
   * (which cannot fail), a serializer with the bytes or error it produces,
   * or a value of no recognised kind.
   */
  datatype MsgData =
    | FastWrite(bytes: seq<byte>)
    | Serialized(via: Serializer, out: Result<seq<byte>, Error>)
    | Unrecognised

  /** What the frame writer was given, in order. */
  datatype Frame = HeaderFrame(bytes: seq<byte>) | DataFrame(bytes: seq<byte>)

  /**
   * The output buffer: a frame writer (its record of the frames it accepted, and the
   * error each kind of write fails with, if any), or a buffer that cannot
   * write frames.
   */
  datatype Output =
    | FrameWriter(written: seq<Frame>, dataErr: Option<Error>, headerErr: Option<Error>)
    | PlainBuffer

  /** The payload bytes the type switch produces, or the serializer's error. */
  function Payload(d: MsgData): (r: Result<seq<byte>, Error>)
    ensures d.FastWrite? ==> r == Success(d.bytes)
    ensures d.Serialized? ==> r == d.out
    ensures d.Unrecognised? ==> r == Success([])
  {
    match d
    case FastWrite(bs) => Success(bs)
    case Serialized(_, out) => out
    case Unrecognised => Success([])
  }

  /**
   * `Encode`: refuse a buffer that cannot write frames; serialize; write the
   * payload; then write the header announcing the payload's length.
   */
  function Encode(d: MsgData, out: Output): (res: (Output, Option<Error>))
    ensures out.PlainBuffer? ==> res == (out, Some(NotFrameWrite))
    ensures out.FrameWriter? && Payload(d).Failure? ==> res == (out, Some(Payload(d).error))
    ensures out.FrameWriter? && Payload(d).Success? && out.dataErr.Some? ==> res == (out, out.dataErr)
    ensures out.FrameWriter? && Payload(d).Success? && out.dataErr.None? && out.headerErr.Some? ==>
      && res.0 == out.(written := out.written + [DataFrame(Payload(d).value)])
      && res.1 == out.headerErr
    ensures out.FrameWriter? && Payload(d).Success? && out.dataErr.None? && out.headerErr.None? ==>
      && res.0 == out.(written := out.written + [DataFrame(Payload(d).value), HeaderFrame(Header(|Payload(d).value|))])
      && res.1.None?
  {
    match out
    case PlainBuffer => (out, Some(NotFrameWrite))
    case FrameWriter(_, dataErr, headerErr) =>
      match Payload(d)
      case Failure(e) => (out, Some(e))
      case Success(data) =>
        if dataErr.Some? then (out, dataErr)
        else
          var afterData := out.(written := out.written + [DataFrame(data)]);
          if headerErr.Some? then (afterData, headerErr)
          else
            assert afterData.written + [HeaderFrame(Header(|data|))] == out.written + [DataFrame(data), HeaderFrame(Header(|data|))];
            (afterData.(written := afterData.written + [HeaderFrame(Header(|data|))]), None)
  }

  /** What decoding leaves behind: the unread input, the payload read (if any), and the error. */
  datatype Decoded = Decoded(rest: seq<byte>, payload: Option<seq<byte>>, err: Option<Error>)

  /**
   * The input buffer's `Next(n)`: the next `n` bytes and the rest, or EOF
   * (nothing consumed) when fewer than `n` bytes remain.
   */
  function Next(input: seq<byte>, n: nat): (r: Result<(seq<byte>, seq<byte>), Error>)
    ensures n <= |input| ==> r == Success((input[..n], input[n..]))
    ensures n > |input| ==> r == Failure(EOF)
  {
    if n <= |input| then Success((input[..n], input[n..])) else Failure(EOF)
  }

  /** How the message receiving the payload deserializes it: the verdict of its deserializer, or none recognised. */
  datatype Sink = Deserializer(verdict: Option<Error>) | NoDeserializer

  /**
   * `Decode`: read the header, take the length from its last four bytes
   * (the flag byte is not looked at), read exactly that many bytes and hand
   * them to the message's deserializer.
   */
  function Decode(input: seq<byte>, sink: Sink): (res: Decoded)
    ensures |input| < HeaderLen ==> res == Decoded(input, None, Some(EOF))
    ensures |input| >= HeaderLen ==>
      var dLen := DecodeUint32(input[1..HeaderLen]);
      && (HeaderLen + dLen > |input| ==> res == Decoded(input[HeaderLen..], None, Some(EOF)))
      && (HeaderLen + dLen <= |input| ==>
            && res.rest == input[HeaderLen + dLen..]
            && res.payload == Some(input[HeaderLen..HeaderLen + dLen])
            && res.err == (if sink.Deserializer? then sink.verdict else None))
  {
    match Next(input, HeaderLen)
    case Failure(e) => Decoded(input, None, Some(e))
    case Success((hdr, afterHdr)) =>
      var dLen := DecodeUint32(hdr[1..]);
      match Next(afterHdr, dLen)
      case Failure(e) => Decoded(afterHdr, None, Some(e))
      case Success((d, rest)) =>
        assert d == input[HeaderLen..HeaderLen + dLen] && rest == input[HeaderLen + dLen..];
        Decoded(rest, Some(d), if sink.Deserializer? then sink.verdict else None)
  }

  /**
   * Framing round trip: an encoded message, sent header first as a gRPC
   * frame, decodes to exactly its payload and consumes exactly its frame,
   * leaving whatever follows untouched. This holds for every payload shorter
   * than 2^32 bytes, whatever the flag byte says.
   */
  lemma RoundTrip(d: MsgData, written: seq<Frame>, rest: seq<byte>, sink: Sink)
    requires Payload(d).Success? && |Payload(d).value| < Uint32Modulus
    ensures var data := Payload(d).value;
      var out := Encode(d, FrameWriter(written, None, None)).0;
      && out.written == written + [DataFrame(data), HeaderFrame(Header(|data|))]
      && Decode(Header(|data|) + data + rest, sink) ==
           Decoded(rest, Some(data), if sink.Deserializer? then sink.verdict else None)
  {
    DecodeFrame(Payload(d).value, rest, sink);
  }

  /** Decoding a header for `data` followed by `data` and more reads back exactly `data`. */
  lemma DecodeFrame(data: seq<byte>, rest: seq<byte>, sink: Sink)
    requires |data| < Uint32Modulus
    ensures Decode(Header(|data|) + data + rest, sink) ==
      Decoded(rest, Some(data), if sink.Deserializer? then sink.verdict else None)
  {
    var h := Header(|data|);
    var input := h + data + rest;
    assert |data| % Uint32Modulus == |data|;
    DecodeEncodeUint32(|data|);
    assert input[1..HeaderLen] == h[1..];
    assert DecodeUint32(input[1..HeaderLen]) == |data|;
    assert input[HeaderLen..HeaderLen + |data|] == data;
    assert input[HeaderLen + |data|..] == rest;
  }

  /**
   * Decode consumes exactly one frame: what it reads is the five header
   * bytes followed by the payload, and re-framing that payload reproduces
   * the header bytes exactly when the flag byte is 0.
   */
  lemma DecodeConsumesOneFrame(input: seq<byte>, sink: Sink)
    requires Decode(input, sink).payload.Some?
    ensures var res := Decode(input, sink);
      && input == input[..HeaderLen] + res.payload.value + res.rest
      && (input[0] == 0 <==> input[..HeaderLen] == Header(|res.payload.value|))
  {
    var res := Decode(input, sink);
    var hdr := input[..HeaderLen];
    var dLen := DecodeUint32(input[1..HeaderLen]);
    assert res.payload.value == input[HeaderLen..HeaderLen + dLen];
    assert res.rest == input[HeaderLen + dLen..];
    assert input == hdr + input[HeaderLen..HeaderLen + dLen] + input[HeaderLen + dLen..];
    assert hdr[1..] == input[1..HeaderLen];
    HeaderIsCanonical(hdr, dLen);
  }

  /** A header whose length field reads `len` is the canonical header for `len` exactly when its flag byte is 0. */
  lemma HeaderIsCanonical(hdr: seq<byte>, len: nat)
    requires |hdr| == HeaderLen && DecodeUint32(hdr[1..]) == len
    ensures hdr[0] == 0 <==> hdr == Header(len)
  {
    EncodeDecodeUint32(hdr[1..]);
    assert len % Uint32Modulus == len;
    assert hdr == [hdr[0]] + hdr[1..];
  }

  /**
   * An unrecognised message still gets a frame: the payload is empty and
   * the header announces length zero.
   */
  lemma UnrecognisedEncodesEmptyFrame(written: seq<Frame>)
    ensures Encode(Unrecognised, FrameWriter(written, None, None)) ==
      (FrameWriter(written + [DataFrame([]), HeaderFrame([0, 0, 0, 0, 0])], None, None), None)
  {
    assert Header(0) == [0, 0, 0, 0, 0];
  }

  /**
   * The header's length is `uint32(len(data))`: for payloads of 2^32 bytes
   * or more it wraps, so the announced length is no longer the payload's.
   */
  lemma HeaderWrapsAt4GiB()
    ensures DecodeUint32(Header(Uint32Modulus)[1..]) == 0
    ensures DecodeUint32(Header(Uint32Modulus + 7)[1..]) == 7
  {
    DecodeEncodeUint32(0);
    DecodeEncodeUint32(7);
  }

  /**
   * How `Encode` as written can end: it returns, or the debug print of the
   * first nine payload bytes of a fast-written message panics because the
   * payload buffer holds fewer than nine.
   */
  datatype EncodeEnd = Returned(out: Output, err: Option<Error>) | Panicked

  /** `Encode` with the debug print of `data[:9]` that follows the fast write. */
  function EncodeAsWritten(d: MsgData, out: Output): (res: EncodeEnd)
    ensures res.Panicked? <==> out.FrameWriter? && d.FastWrite? && |d.bytes| < 9
    ensures res.Returned? ==> (res.out, res.err) == Encode(d, out)
  {
    if out.FrameWriter? && d.FastWrite? && |d.bytes| < 9 then Panicked
    else
      var (o, e) := Encode(d, out);
      Returned(o, e)
  }

  /**
   * A fast-written message of three bytes makes the code as written panic,
   * where the framing (the model's `Encode`) writes a good frame.
   */
  lemma ShortFastWritePanics()
    ensures EncodeAsWritten(FastWrite([1, 2, 3]), FrameWriter([], None, None)) == Panicked
    ensures Encode(FastWrite([1, 2, 3]), FrameWriter([], None, None)) ==
      (FrameWriter([DataFrame([1, 2, 3]), HeaderFrame([0, 0, 0, 0, 3])], None, None), None)
  {
    var bs: seq<byte> := [1, 2, 3];
    assert |bs| == 3;
    assert EncodeUint32(3) == [0, 0, 0, 3];
    assert Header(|bs|) == [0, 0, 0, 0, 3];
    var none: seq<Frame> := [];
    assert none + [DataFrame(bs), HeaderFrame(Header(|bs|))] == [DataFrame(bs), HeaderFrame([0, 0, 0, 0, 3])];
  }
}
