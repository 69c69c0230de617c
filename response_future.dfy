/** ResponseFuture: the single-slot handle a caller of
    `sendRequestExpectResponse` holds, and the Response it is resolved with. */
module ResponseFutures {
  import opened Wrappers
  import opened Messages

  /** The immediate outcome of issuing a request. */
  datatype RequestStatus = Ok | ServiceNotFound | ServiceNotResponsive

  /** A received response, or the timed-out marker. */
  datatype Response = Response(
    timedOut: bool,
    serviceNameFrom: Option<string>,
    data: Data,
    code: Option<int>,
    userMessage: Option<string>,
    nerdDetail: Option<string>)

  /** The response the dispatcher resolves a call with when its deadline passes
      (Processor.java:285). */
  function TimedOutResponse(): (r: Response)
    ensures r.timedOut
    ensures r.serviceNameFrom.None? && r.data.None? && r.userMessage.None? && r.nerdDetail.None?
    ensures r.code == Some(0)
  {
    Response(true, None, None, Some(0), None, None)
  }

  /** What `await()` does now: return at once, or block until `set` is called. */
  datatype AwaitOutcome = Returns(response: Option<Response>) | Blocks

  class ResponseFuture {
    const requestStatus: RequestStatus
    /** `responseAtom`: empty until `set`. */
    var response: Option<Response>
    /** The call this future belongs to: the request id for a pending call.
        It exists only in the model, to tell the futures of distinct calls apart. */
    ghost const requestId: int

    constructor(requestStatus: RequestStatus, ghost requestId: int)
      ensures this.requestStatus == requestStatus && this.requestId == requestId
      ensures response == None
    {
      this.requestStatus := requestStatus;
      this.requestId := requestId;
      response := None;
    }

    method GetRequestStatus() returns (status: RequestStatus)
      ensures status == requestStatus
    {
      status := requestStatus;
    }

    /** The response if present, else null. */
    method Get() returns (r: Option<Response>)
      ensures r == response
    {
      r := response;
    }

    /** `await()` without its blocking: null at once when the request was never
        made; the response once one is set; otherwise it would wait. */
    method Await() returns (outcome: AwaitOutcome)
      ensures requestStatus != Ok ==> outcome == Returns(None)
      ensures requestStatus == Ok && response.Some? ==> outcome == Returns(response)
      ensures requestStatus == Ok && response.None? ==> outcome == Blocks
    {
      if requestStatus != Ok {
        return Returns(None);
      }
      if response.None? {
        return Blocks;
      }
      outcome := Returns(response);
    }

    /** Set and signal the response. */
    method Set(r: Response)
      modifies this`response
      ensures response == Some(r)
    {
      response := Some(r);
    }
  }

  /** A caller's view: a fresh Ok future reads as empty and would block; once
      set, `get` and `await` both return the response; a failed request's
      future returns null from `await` at once. */
  method FutureLifecycle(r: Response)
    returns (before: Option<Response>, waiting: AwaitOutcome, got: Option<Response>, awaited: AwaitOutcome,
             status: RequestStatus, failedAwait: AwaitOutcome)
    ensures before == None && waiting == Blocks
    ensures got == Some(r) && awaited == Returns(Some(r))
    ensures status == ServiceNotFound && failedAwait == Returns(None)
  {
    var f := new ResponseFuture(Ok, 1);
    before := f.Get();
    waiting := f.Await();
    f.Set(r);
    got := f.Get();
    awaited := f.Await();
    var failed := new ResponseFuture(ServiceNotFound, 0);
    status := failed.GetRequestStatus();
    failedAwait := failed.Await();
  }
}
