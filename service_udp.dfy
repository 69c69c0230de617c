/** ServiceUdp: the datagram framing of a message.

    A datagram is a 10-byte zero-padded ASCII decimal header length h, then the
    h bytes of the JSON header, then the payload, whose length is whatever is
    left of the datagram. Gson's serializer and deserializer are parameters
    (`toJson` / `fromJson`); the header bytes are otherwise opaque. */
module ServiceUdp {
  import opened Wrappers
  import opened JavaLang
  import opened Messages

  /** Width of the header length field (HEADER_LENGTH_BYTES). */
  const HeaderLengthBytes: nat := 10

  /** The reasons the receive loop logs and skips a datagram. */
  datatype Reject =
    | TooSmall
    | InvalidHeaderLength
    | InsufficientHeaderBytes
    | PayloadTooLarge
    | HeaderUndeserializable
    | NullHeader
    | BadHeader
    | WrongService

  /** A datagram as the socket delivers it. */
  datatype Packet = Packet(bytes: seq<byte>, address: Address, port: int)

  /** A datagram cut into its header bytes and its payload. */
  datatype Frame = Frame(headerBytes: seq<byte>, payload: seq<byte>)

  function AsciiBytes(s: string): (bs: seq<byte>)
    requires forall i | 0 <= i < |s| :: s[i] as int < 256
    ensures |bs| == |s|
  {
    seq(|s|, i requires 0 <= i < |s| => (s[i] as int) as byte)
  }

  /** `new String(bytes, UTF_8)`, restricted to ASCII: every byte below 128
      is its own character, and any other byte gives `None`. Java decodes such
      bytes as UTF-8 instead, and some of the characters it gets are digits
      that `Integer.valueOf` accepts (EF BC 94 is U+FF14, read as 4). */
  function AsciiText(bs: seq<byte>): (s: Option<string>)
    ensures s.Some? ==> |s.value| == |bs|
  {
    if forall i | 0 <= i < |bs| :: bs[i] < 128 then Some(seq(|bs|, i requires 0 <= i < |bs| => (bs[i] as int) as char))
    else None
  }

  /** The header length field of a datagram: `Integer.valueOf` of its first
      ten bytes, read as ASCII text. */
  function HeaderLength(packet: seq<byte>): Option<int>
    requires |packet| >= HeaderLengthBytes
  {
    var text := AsciiText(packet[..HeaderLengthBytes]);
    if text.None? then None else ParseInt(text.value)
  }

  /** The ten length bytes `String.format("%010d", h).getBytes(UTF_8)` writes
      under a locale whose digits are the ASCII ones. */
  function LengthField(h: nat): (bs: seq<byte>)
    ensures |bs| == HeaderLengthBytes
  {
    AsciiBytes(ZeroPadded(h, HeaderLengthBytes))
  }

  /** The datagram `send` builds from serialized header bytes and payload bytes. */
  function EncodeFrame(headerBytes: seq<byte>, payload: seq<byte>): (frame: seq<byte>)
    ensures |frame| == HeaderLengthBytes + |headerBytes| + |payload|
  {
    LengthField(|headerBytes|) + headerBytes + payload
  }

  /** The framing guards of the receive loop (ServiceUdp.java:84-110), and the
      header substring the deserializer is given, which throws for a negative h. */
  function Split(packet: seq<byte>, maxMessageInBytes: int): (r: Result<Frame, Reject>)
    ensures |packet| < HeaderLengthBytes ==> r == Failure(TooSmall)
    ensures |packet| >= HeaderLengthBytes && HeaderLength(packet).None? ==> r == Failure(InvalidHeaderLength)
    ensures r.Success? ==>
      && HeaderLength(packet) == Some(|r.value.headerBytes|)
      && packet == packet[..HeaderLengthBytes] + r.value.headerBytes + r.value.payload
      && |r.value.payload| <= maxMessageInBytes
      && |r.value.payload| == |packet| - HeaderLengthBytes - |r.value.headerBytes|
    ensures r == Failure(PayloadTooLarge) <==>
      && |packet| >= HeaderLengthBytes
      && HeaderLength(packet).Some?
      && |packet| >= HeaderLengthBytes + HeaderLength(packet).value
      && |packet| - HeaderLengthBytes - HeaderLength(packet).value > maxMessageInBytes
    ensures r == Failure(InsufficientHeaderBytes) <==>
      && |packet| >= HeaderLengthBytes
      && HeaderLength(packet).Some?
      && |packet| < HeaderLengthBytes + HeaderLength(packet).value
    ensures r == Failure(HeaderUndeserializable) <==>
      && |packet| >= HeaderLengthBytes
      && HeaderLength(packet).Some?
      && HeaderLength(packet).value < 0
      && |packet| - HeaderLengthBytes - HeaderLength(packet).value <= maxMessageInBytes
    ensures r.Success? <==>
      && |packet| >= HeaderLengthBytes
      && HeaderLength(packet).Some?
      && 0 <= HeaderLength(packet).value <= |packet| - HeaderLengthBytes
      && |packet| - HeaderLengthBytes - HeaderLength(packet).value <= maxMessageInBytes
  {
    if |packet| < HeaderLengthBytes then Failure(TooSmall)
    else
      var h := HeaderLength(packet);
      if h.None? then Failure(InvalidHeaderLength)
      else if |packet| < HeaderLengthBytes + h.value then Failure(InsufficientHeaderBytes)
      else
        var dataLength := |packet| - h.value - HeaderLengthBytes;
        if dataLength > maxMessageInBytes then Failure(PayloadTooLarge)
        else if h.value < 0 then Failure(HeaderUndeserializable)
        else
          var bodyStart := HeaderLengthBytes + h.value;
          assert packet == packet[..HeaderLengthBytes] + packet[HeaderLengthBytes..bodyStart] + packet[bodyStart..];
          Success(Frame(packet[HeaderLengthBytes..bodyStart], packet[bodyStart..]))
  }

  /** The header checks of ServiceUdp.java:122-131. */
  function CheckHeader(header: MessageHeader, serviceName: string): (r: Result<MessageHeader, Reject>)
    ensures r.Success? <==>
      && !IsNullOrBlank(header.serviceNameFrom)
      && !IsNullOrBlank(header.serviceNameTo)
      && (header.id.Some? ==> header.id.value > 0)
      && header.serviceNameTo == Some(serviceName)
    ensures r.Success? ==> r.value == header
    ensures r == Failure(WrongService) <==>
      && !IsNullOrBlank(header.serviceNameFrom)
      && !IsNullOrBlank(header.serviceNameTo)
      && (header.id.Some? ==> header.id.value > 0)
      && header.serviceNameTo != Some(serviceName)
  {
    if IsNullOrBlank(header.serviceNameFrom) || IsNullOrBlank(header.serviceNameTo)
        || (header.id.Some? && header.id.value <= 0) then
      Failure(BadHeader)
    else if header.serviceNameTo.value != serviceName then
      Failure(WrongService)
    else
      Success(header)
  }

  /** The payload handed on: null when empty, else a copy of the bytes. */
  function PayloadData(payload: seq<byte>): (d: Data)
    ensures DataBytes(d) == payload
    ensures d.None? <==> |payload| == 0
  {
    if |payload| == 0 then None else Some(payload)
  }

  /** The per-datagram body of the receive loop: accept the datagram as a
      message to this service, or reject it. A `null` header is rejected. */
  function Decode(packet: Packet, maxMessageInBytes: int, serviceName: string,
                  fromJson: seq<byte> -> JsonOutcome<MessageHeader>): (r: Result<MessageToMe, Reject>)
    ensures r.Success? ==>
      && Split(packet.bytes, maxMessageInBytes).Success?
      && var frame := Split(packet.bytes, maxMessageInBytes).value;
      && fromJson(frame.headerBytes) == Parsed(r.value.header)
      && CheckHeader(r.value.header, serviceName).Success?
      && DataBytes(r.value.data) == frame.payload
      && r.value.serviceAddressFrom == packet.address
      && r.value.servicePortFrom == packet.port
    ensures var split := Split(packet.bytes, maxMessageInBytes);
      r.Success? <==>
        && split.Success?
        && fromJson(split.value.headerBytes).Parsed?
        && CheckHeader(fromJson(split.value.headerBytes).value, serviceName).Success?
    ensures var split := Split(packet.bytes, maxMessageInBytes);
      split.Failure? ==> r == Failure(split.error)
    ensures var split := Split(packet.bytes, maxMessageInBytes);
      split.Success? && fromJson(split.value.headerBytes).Malformed? ==> r == Failure(HeaderUndeserializable)
    ensures var split := Split(packet.bytes, maxMessageInBytes);
      split.Success? && fromJson(split.value.headerBytes).JsonNull? ==> r == Failure(NullHeader)
    ensures var split := Split(packet.bytes, maxMessageInBytes);
      && split.Success? && fromJson(split.value.headerBytes).Parsed?
      && CheckHeader(fromJson(split.value.headerBytes).value, serviceName).Failure?
      ==> r == Failure(CheckHeader(fromJson(split.value.headerBytes).value, serviceName).error)
  {
    var frame :- Split(packet.bytes, maxMessageInBytes);
    var parsed := fromJson(frame.headerBytes);
    if parsed.Malformed? then Failure(HeaderUndeserializable)
    else if parsed.JsonNull? then Failure(NullHeader)
    else
      var header :- CheckHeader(parsed.value, serviceName);
      Success(MessageToMe(header, PayloadData(frame.payload), packet.address, packet.port))
  }

  /** What the receive loop as written does with one datagram: the same as
      `Decode`, except that a `null` header reaches the field checks at
      ServiceUdp.java:122, outside the try block, and the NullPointerException
      ends the receive thread. */
  datatype LoopStep = Accept(message: MessageToMe) | Skip(reason: Reject) | ReceiverDies

  function DecodeAsWritten(packet: Packet, maxMessageInBytes: int, serviceName: string,
                           fromJson: seq<byte> -> JsonOutcome<MessageHeader>): (r: LoopStep)
    ensures r.Accept? <==> Decode(packet, maxMessageInBytes, serviceName, fromJson).Success?
    ensures r.ReceiverDies? <==>
      Split(packet.bytes, maxMessageInBytes).Success?
      && fromJson(Split(packet.bytes, maxMessageInBytes).value.headerBytes).JsonNull?
  {
    match Split(packet.bytes, maxMessageInBytes)
    case Failure(e) => Skip(e)
    case Success(frame) =>
      match fromJson(frame.headerBytes)
      case Malformed => Skip(HeaderUndeserializable)
      case JsonNull => ReceiverDies
      case Parsed(header) =>
        match CheckHeader(header, serviceName)
        case Failure(e) => Skip(e)
        case Success(_) => Accept(MessageToMe(header, PayloadData(frame.payload), packet.address, packet.port))
  }

  /** The messages the receive loop as written hands on from a run of datagrams. */
  function ReceivedAsWritten(packets: seq<Packet>, maxMessageInBytes: int, serviceName: string,
                             fromJson: seq<byte> -> JsonOutcome<MessageHeader>): seq<MessageToMe>
  {
    if packets == [] then []
    else
      match DecodeAsWritten(packets[0], maxMessageInBytes, serviceName, fromJson)
      case ReceiverDies => []
      case Skip(_) => ReceivedAsWritten(packets[1..], maxMessageInBytes, serviceName, fromJson)
      case Accept(m) => [m] + ReceivedAsWritten(packets[1..], maxMessageInBytes, serviceName, fromJson)
  }

  /** The messages the receive loop hands on from a run of datagrams: every
      datagram that decodes, in arrival order; a rejected one is skipped. */
  function Received(packets: seq<Packet>, maxMessageInBytes: int, serviceName: string,
                    fromJson: seq<byte> -> JsonOutcome<MessageHeader>): seq<MessageToMe>
  {
    if packets == [] then []
    else
      var rest := Received(packets[..|packets| - 1], maxMessageInBytes, serviceName, fromJson);
      match Decode(packets[|packets| - 1], maxMessageInBytes, serviceName, fromJson)
      case Failure(_) => rest
      case Success(m) => rest + [m]
  }

  /** The corrected receive loop (ServiceUdp.java:70-139) over a run of
      datagrams: each one is decoded on its own by `Decode`, and a rejection,
      a null header included, moves on to the next. The loop as written
      stops at the first null header (`ReceivedAsWritten`). */
  method Run(packets: seq<Packet>, maxMessageInBytes: int, serviceName: string,
             fromJson: seq<byte> -> JsonOutcome<MessageHeader>) returns (accepted: seq<MessageToMe>)
    ensures accepted == Received(packets, maxMessageInBytes, serviceName, fromJson)
  {
    accepted := [];
    var i := 0;
    while i < |packets|
      invariant 0 <= i <= |packets|
      invariant accepted == Received(packets[..i], maxMessageInBytes, serviceName, fromJson)
    {
      var r := Decode(packets[i], maxMessageInBytes, serviceName, fromJson);
      assert packets[..i + 1][..i] == packets[..i];
      if r.Success? {
        accepted := accepted + [r.value];
      }
      i := i + 1;
    }
    assert packets[..i] == packets;
  }

  /** The messages decoded from two runs of datagrams are those of each run, in order. */
  lemma {:induction false} ReceivedAppend(a: seq<Packet>, b: seq<Packet>, maxMessageInBytes: int, serviceName: string,
                                          fromJson: seq<byte> -> JsonOutcome<MessageHeader>)
    ensures Received(a + b, maxMessageInBytes, serviceName, fromJson)
         == Received(a, maxMessageInBytes, serviceName, fromJson) + Received(b, maxMessageInBytes, serviceName, fromJson)
    decreases |b|
  {
    if b == [] {
      assert a + b == a;
    } else {
      var b' := b[..|b| - 1];
      assert (a + b)[..|a + b| - 1] == a + b';
      assert (a + b)[|a + b| - 1] == b[|b| - 1];
      ReceivedAppend(a, b', maxMessageInBytes, serviceName, fromJson);
    }
  }

  /** A rejected datagram is skipped and nothing else is lost: the loop goes on
      with the datagrams after it. */
  lemma RejectionSkipsOnlyThatPacket(before: seq<Packet>, bad: Packet, after: seq<Packet>, maxMessageInBytes: int,
                                     serviceName: string, fromJson: seq<byte> -> JsonOutcome<MessageHeader>)
    requires Decode(bad, maxMessageInBytes, serviceName, fromJson).Failure?
    ensures Received(before + [bad] + after, maxMessageInBytes, serviceName, fromJson)
         == Received(before, maxMessageInBytes, serviceName, fromJson) + Received(after, maxMessageInBytes, serviceName, fromJson)
  {
    ReceivedAppend(before + [bad], after, maxMessageInBytes, serviceName, fromJson);
    ReceivedAppend(before, [bad], maxMessageInBytes, serviceName, fromJson);
    assert [bad][..0] == [];
  }

  /** As written, a datagram whose header text deserializes to null ends the
      receive loop: none of the datagrams after it is ever handed on. */
  lemma NullHeaderStopsReceiver(bad: Packet, after: seq<Packet>, maxMessageInBytes: int, serviceName: string,
                                fromJson: seq<byte> -> JsonOutcome<MessageHeader>)
    requires DecodeAsWritten(bad, maxMessageInBytes, serviceName, fromJson).ReceiverDies?
    ensures ReceivedAsWritten([bad] + after, maxMessageInBytes, serviceName, fromJson) == []
  {
    assert ([bad] + after)[0] == bad;
  }

  /** The datagram `0000000004null`: its header text is the JSON literal null,
      for which Gson's deserializer returns null. */
  const NullText: seq<byte> := [110, 117, 108, 108]

  lemma NullHeaderDatagramKillsReceiver(address: Address, port: int, maxMessageInBytes: int, serviceName: string,
                                        fromJson: seq<byte> -> JsonOutcome<MessageHeader>)
    requires maxMessageInBytes >= 0
    requires fromJson(NullText) == JsonNull
    ensures EncodeFrame(NullText, []) == [48, 48, 48, 48, 48, 48, 48, 48, 48, 52] + NullText
    ensures DecodeAsWritten(Packet(EncodeFrame(NullText, []), address, port), maxMessageInBytes, serviceName, fromJson)
         == ReceiverDies
    ensures Decode(Packet(EncodeFrame(NullText, []), address, port), maxMessageInBytes, serviceName, fromJson)
         == Failure(NullHeader)
  {
    assert ZeroPadded(4, HeaderLengthBytes) == "0000000004";
    FrameRoundTrip(NullText, [], maxMessageInBytes);
  }

  lemma AsciiRoundTrip(s: string)
    requires forall i | 0 <= i < |s| :: s[i] as int < 128
    ensures AsciiText(AsciiBytes(s)) == Some(s)
  {
    var bs := AsciiBytes(s);
    assert forall i | 0 <= i < |bs| :: bs[i] < 128;
    var t := seq(|bs|, i requires 0 <= i < |bs| => (bs[i] as int) as char);
    assert forall i | 0 <= i < |s| :: t[i] == s[i];
    assert t == s;
  }

  /** The length field `send` writes reads back as the header length. */
  lemma LengthFieldParses(h: nat, rest: seq<byte>)
    requires h <= MaxHeaderBytes
    ensures HeaderLength(LengthField(h) + rest) == Some(h)
  {
    var text := ZeroPadded(h, HeaderLengthBytes);
    assert (LengthField(h) + rest)[..HeaderLengthBytes] == LengthField(h);
    AsciiRoundTrip(text);
    assert Pow10(HeaderLengthBytes) == 10_000_000_000;
    ParseZeroPadded(h, HeaderLengthBytes);
  }

  /** Framing round trip: the receive loop's framing guards cut a frame built
      by `send` back into the same header bytes and payload, provided the
      payload fits the inbound limit. */
  lemma FrameRoundTrip(headerBytes: seq<byte>, payload: seq<byte>, maxMessageInBytes: int)
    requires |headerBytes| <= MaxHeaderBytes
    requires |payload| <= maxMessageInBytes
    ensures Split(EncodeFrame(headerBytes, payload), maxMessageInBytes) == Success(Frame(headerBytes, payload))
  {
    var packet := EncodeFrame(headerBytes, payload);
    LengthFieldParses(|headerBytes|, headerBytes + payload);
    assert LengthField(|headerBytes|) + (headerBytes + payload) == packet;
    var bodyStart := HeaderLengthBytes + |headerBytes|;
    assert packet[HeaderLengthBytes..bodyStart] == headerBytes;
    assert packet[bodyStart..] == payload;
  }

  /** End-to-end framing: a header and payload that `send` frames are decoded by
      the receiving service, given that Gson reads back what it wrote and that
      the header passes the receiver's checks. The empty payload arrives as null. */
  lemma DecodeRoundTrip(header: MessageHeader, data: Data, address: Address, port: int, maxMessageInBytes: int,
                        serviceName: string, toJson: MessageHeader -> seq<byte>,
                        fromJson: seq<byte> -> JsonOutcome<MessageHeader>)
    requires fromJson(toJson(header)) == Parsed(header)
    requires |toJson(header)| <= MaxHeaderBytes && DataLength(data) <= maxMessageInBytes
    requires CheckHeader(header, serviceName).Success?
    ensures Decode(Packet(EncodeFrame(toJson(header), DataBytes(data)), address, port), maxMessageInBytes, serviceName, fromJson)
         == Success(MessageToMe(header, PayloadData(DataBytes(data)), address, port))
    ensures PayloadData(DataBytes(data)) == (if DataLength(data) == 0 then None else data)
  {
    FrameRoundTrip(toJson(header), DataBytes(data), maxMessageInBytes);
  }

  /** `System.arraycopy(src, 0, dst, dstPos, src.length)`. */
  method ArrayCopy(src: seq<byte>, dst: array<byte>, dstPos: nat)
    requires dstPos + |src| <= dst.Length
    modifies dst
    ensures forall k | 0 <= k < dst.Length ::
      dst[k] == if dstPos <= k < dstPos + |src| then src[k - dstPos] else old(dst[k])
  {
    var i := 0;
    while i < |src|
      invariant 0 <= i <= |src|
      invariant forall k | 0 <= k < dst.Length ::
        dst[k] == if dstPos <= k < dstPos + i then src[k - dstPos] else old(dst[k])
    {
      dst[dstPos + i] := src[i];
      i := i + 1;
    }
  }

  /** The datagram `send` would hand to the socket: none when the payload is
      longer than `maxMessageOutBytes` or the serialized header longer than
      500 bytes, else the frame of the header and the payload. */
  function OutgoingFrame(header: MessageHeader, data: Data, maxMessageOutBytes: int,
                         toJson: MessageHeader -> seq<byte>): (d: Option<seq<byte>>)
    ensures d.None? <==> DataLength(data) > maxMessageOutBytes || |toJson(header)| > MaxHeaderBytes
    ensures d.Some? ==> |d.value| == HeaderLengthBytes + |toJson(header)| + DataLength(data)
    ensures d.Some? ==> d.value[..HeaderLengthBytes] == LengthField(|toJson(header)|)
    ensures d.Some? ==> d.value[HeaderLengthBytes..HeaderLengthBytes + |toJson(header)|] == toJson(header)
    ensures d.Some? ==> d.value[HeaderLengthBytes + |toJson(header)|..] == DataBytes(data)
  {
    if DataLength(data) > maxMessageOutBytes || |toJson(header)| > MaxHeaderBytes then None
    else
      var frame := EncodeFrame(toJson(header), DataBytes(data));
      assert frame[..HeaderLengthBytes] == LengthField(|toJson(header)|);
      assert frame[HeaderLengthBytes..HeaderLengthBytes + |toJson(header)|] == toJson(header);
      assert frame[HeaderLengthBytes + |toJson(header)|..] == DataBytes(data);
      Some(frame)
  }

  /** `send` (ServiceUdp.java:145-176): refuse an oversized payload or header,
      else fill a datagram buffer with the length field, the header bytes and
      the payload and hand it to the socket. `datagram` is what the socket is
      given; `ok` is the method's return value. */
  method Send(header: MessageHeader, data: Data, maxMessageOutBytes: int,
              toJson: MessageHeader -> seq<byte>, socketAccepts: bool)
    returns (ok: bool, datagram: Option<seq<byte>>)
    ensures datagram == OutgoingFrame(header, data, maxMessageOutBytes, toJson)
    ensures ok <==> datagram.Some? && socketAccepts
  {
    var dataLength := DataLength(data);
    if dataLength > maxMessageOutBytes {
      return false, None;
    }
    var headerBytes := toJson(header);
    var headerLength := |headerBytes|;
    if headerLength > MaxHeaderBytes {
      return false, None;
    }
    var udpMessage := new byte[HeaderLengthBytes + headerLength + dataLength];
    var lengthField := LengthField(headerLength);
    ArrayCopy(lengthField, udpMessage, 0);
    ArrayCopy(headerBytes, udpMessage, HeaderLengthBytes);
    var payload := DataBytes(data);
    if data.Some? {
      ArrayCopy(payload, udpMessage, HeaderLengthBytes + headerLength);
    }
    ghost var frame := EncodeFrame(headerBytes, payload);
    assert |frame| == udpMessage.Length;
    forall k | 0 <= k < udpMessage.Length
      ensures udpMessage[k] == frame[k]
    {
      if k < HeaderLengthBytes {
        assert frame[k] == lengthField[k];
      } else if k < HeaderLengthBytes + headerLength {
        assert frame[k] == headerBytes[k - HeaderLengthBytes];
      } else {
        assert frame[k] == payload[k - HeaderLengthBytes - headerLength];
      }
    }
    datagram := Some(udpMessage[..]);
    assert udpMessage[..] == frame;
    ok := socketAccepts;
  }
}
