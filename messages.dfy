/** The values that travel between the components of the messaging core:
    the message header (MessageHeader.java), what a service finder reports
    about a peer (ServiceInfo.java) and an inbound message as the transport
    hands it to the dispatcher. */
module Messages {
  import opened Wrappers
  import opened JavaLang

  /** An `InetAddress`, compared by value. */
  type Address = seq<byte>

  /** A `byte[]` that may be null. */
  type Data = Option<seq<byte>>

  /** The number of bytes a `byte[]` contributes to a datagram: none when null. */
  function DataLength(d: Data): nat {
    if d.None? then 0 else |d.value|
  }

  function DataBytes(d: Data): seq<byte> {
    if d.None? then [] else d.value
  }

  /** The largest serialized header a datagram may carry (MessageHeader.MAX_BYTES). */
  const MaxHeaderBytes: int := 500

  /** Present only on a response. */
  datatype ResponseMeta = ResponseMeta(code: Option<int>, userMessage: Option<string>, nerdDetail: Option<string>)

  /** The routing and correlation part of a message. `id` is present on a request
      that expects a response and on every response (echoing the request's id). */
  datatype MessageHeader = MessageHeader(
    serviceNameFrom: Option<string>,
    serviceNameTo: Option<string>,
    id: Option<int>,
    responseMeta: Option<ResponseMeta>)
  {
    /** A response carries response metadata; a request does not. */
    predicate IsResponse() {
      responseMeta.Some?
    }
  }

  /** What a service finder knows of one remote instance. */
  datatype ServiceInfo = ServiceInfo(address: Option<Address>, udpPort: int, timeoutMillis: int, lastHeardFromTimeMillis: int)

  /** An accepted datagram as handed to `Processor.acceptMessageToMe`. */
  datatype MessageToMe = MessageToMe(header: MessageHeader, data: Data, serviceAddressFrom: Address, servicePortFrom: int)

  /** What `gson.fromJson` does with a piece of text: throw, return null (the
      JSON text `null`, or no JSON at all), or return a value. */
  datatype JsonOutcome<T> = Malformed | JsonNull | Parsed(value: T)
}
