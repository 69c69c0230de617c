/** The argument guards of MicroService, the base class a service extends:
    each of its three calls checks its arguments, throws
    IllegalArgumentException on the first bad one, and otherwise hands them
    unchanged to the processor. */
module MicroServiceApi {
  import opened Wrappers
  import opened JavaLang
  import opened Messages

  const MaxStringLength: int := 100
  const MaxDataLength: int := 64000

  /** The IllegalArgumentException messages. */
  datatype ArgumentError =
    | RequestIdNotPositive
    | UserMessageTooLong
    | NerdDetailTooLong
    | DataTooLong
    | ServiceNameToRequired
    | ServiceNameToTooLong

  /** The processor call a valid invocation turns into. */
  datatype ProcessorCall =
    | SendResponseCall(requestId: int, code: Option<int>, userMessage: Option<string>, nerdDetail: Option<string>, data: Data)
    | SendRequestCall(serviceNameTo: string, data: Data)
    | SendRequestExpectResponseCall(serviceNameTo: string, data: Data)

  /** A nullable string argument within the length limit (null is allowed). */
  predicate ShortOrNull(s: Option<string>) {
    s.None? || |s.value| <= MaxStringLength
  }

  /** A nullable data argument within the size limit (null is allowed). */
  predicate DataWithinLimit(data: Data) {
    data.None? || |data.value| <= MaxDataLength
  }

  /** `sendResponse`'s guards (MicroService.java:64-71). */
  function SendResponse(requestId: Option<int>, code: Option<int>, userMessage: Option<string>,
                        nerdDetail: Option<string>, data: Data): (r: Result<ProcessorCall, ArgumentError>)
    ensures r.Success? <==>
      requestId.Some? && requestId.value > 0 && ShortOrNull(userMessage) && ShortOrNull(nerdDetail) && DataWithinLimit(data)
    ensures r.Success? ==> r.value == SendResponseCall(requestId.value, code, userMessage, nerdDetail, data)
    ensures (requestId.None? || requestId.value <= 0) ==> r == Failure(RequestIdNotPositive)
  {
    if requestId.None? || requestId.value <= 0 then Failure(RequestIdNotPositive)
    else if userMessage.Some? && |userMessage.value| > MaxStringLength then Failure(UserMessageTooLong)
    else if nerdDetail.Some? && |nerdDetail.value| > MaxStringLength then Failure(NerdDetailTooLong)
    else if data.Some? && |data.value| > MaxDataLength then Failure(DataTooLong)
    else Success(SendResponseCall(requestId.value, code, userMessage, nerdDetail, data))
  }

  /** The guards `sendRequest` and `sendRequestExpectResponse` share
      (MicroService.java:83-88 and 102-107): the destination name is returned. */
  function RequestGuards(serviceNameTo: Option<string>, data: Data): (r: Result<string, ArgumentError>)
    ensures r.Success? <==>
      !IsNullOrBlank(serviceNameTo) && |serviceNameTo.value| <= MaxStringLength && DataWithinLimit(data)
    ensures r.Success? ==> r.value == serviceNameTo.value
    ensures IsNullOrBlank(serviceNameTo) ==> r == Failure(ServiceNameToRequired)
  {
    if serviceNameTo.None? || IsBlank(serviceNameTo.value) then Failure(ServiceNameToRequired)
    else if |serviceNameTo.value| > MaxStringLength then Failure(ServiceNameToTooLong)
    else if data.Some? && |data.value| > MaxDataLength then Failure(DataTooLong)
    else Success(serviceNameTo.value)
  }

  function SendRequest(serviceNameTo: Option<string>, data: Data): (r: Result<ProcessorCall, ArgumentError>)
    ensures r.Success? <==> RequestGuards(serviceNameTo, data).Success?
    ensures r.Success? ==> r.value == SendRequestCall(serviceNameTo.value, data)
  {
    var name :- RequestGuards(serviceNameTo, data);
    Success(SendRequestCall(name, data))
  }

  function SendRequestExpectResponse(serviceNameTo: Option<string>, data: Data): (r: Result<ProcessorCall, ArgumentError>)
    ensures r.Success? <==> RequestGuards(serviceNameTo, data).Success?
    ensures r.Success? ==> r.value == SendRequestExpectResponseCall(serviceNameTo.value, data)
  {
    var name :- RequestGuards(serviceNameTo, data);
    Success(SendRequestExpectResponseCall(name, data))
  }

  /** The limits are inclusive: exactly 100 characters and exactly 64000 bytes pass. */
  lemma LimitsInclusive(name: string, data: seq<byte>)
    requires |name| == MaxStringLength && |data| == MaxDataLength && !IsBlank(name)
    ensures SendRequest(Some(name), Some(data)).Success?
    ensures SendResponse(Some(1), None, Some(name), Some(name), Some(data)).Success?
    ensures SendRequest(Some(name + "x"), None) == Failure(ServiceNameToTooLong)
  {
    assert !IsBlank(name + "x") by {
      var i :| 0 <= i < |name| && !IsWhitespace(name[i]);
      assert (name + "x")[i] == name[i];
    }
  }
}
