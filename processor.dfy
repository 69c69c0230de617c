/** Processor: the dispatcher at the centre of a service. Outbound requests
    and responses are queued by the service's own threads and sent by the
    dispatcher; inbound messages are queued by the transport and sorted by
    the dispatcher into responses (which resolve a pending call's future) and
    requests (which go to the worker queue). Calls and inbound requests that
    expect a response are remembered in two tables, each with a deadline
    list that expires them. One pass of the dispatcher loop is modelled as
    five steps taken with one clock reading. */
module Dispatcher {
  import opened Wrappers
  import opened JavaLang
  import opened Messages
  import ServiceUdp
  import opened ResponseFutures
  import Emitter
  import Stats
  import Configuration

  /** A message queued for sending: a request (with the peer it goes to, and
      for a call the future its caller holds) or a response (with the
      internal id of the request it answers). */
  datatype MessageFromMe = MessageFromMe(
    header: MessageHeader,
    data: Data,
    responseFuture: Option<ResponseFuture>,
    serviceTo: Option<ServiceInfo>,
    internalRequestId: Option<int>)

  /** A call of mine waiting for its response. */
  datatype RequestFromMeExpectingResponse = RequestFromMeExpectingResponse(header: MessageHeader, responseFuture: ResponseFuture)

  /** A request to me waiting for my service's response, with where it came from. */
  datatype RequestToMeExpectingResponse = RequestToMeExpectingResponse(
    header: MessageHeader, serviceAddressFrom: Address, servicePortFrom: int)

  /** A deadline: the id expires once the clock reaches `expireTimeMillis`,
      the creation time plus `timeoutMillis`. */
  datatype ExpiringId = ExpiringId(id: int, timeoutMillis: int, expireTimeMillis: int)

  /** What a worker thread is handed (RequestToMeThread.Request): the
      internal id its response must quote. */
  datatype Request = Request(internalRequestId: int, serviceNameFrom: Option<string>, data: Data)

  /** A datagram the socket took. */
  datatype Datagram = Datagram(bytes: seq<byte>, address: Option<Address>, port: int)

  /** The part of the dispatcher's state one loop iteration changes besides
      its queues: both tables and deadline lists, the generator, the worker
      queue, the wire, the counters, and the responses handed to futures. */
  datatype DispatchState = DispatchState(
    requestsFromMe: map<int, RequestFromMeExpectingResponse>,
    expiringFromMe: seq<ExpiringId>,
    requestsToMeTable: map<int, RequestToMeExpectingResponse>,
    expiringToMe: seq<ExpiringId>,
    requestIdGenerator: int,
    requestsToMe: seq<Request>,
    sent: seq<Datagram>,
    requestsSent: int,
    responsesSent: int,
    failedRequests: int,
    failedResponses: int,
    responsesReceived: int,
    requestsReceived: int,
    responsesDroppedByOthers: int,
    responsesDroppedByMe: int,
    resolved: map<ResponseFuture, Response>)

  /** How many of the queued messages are requests. */
  function RequestCount(q: seq<MessageFromMe>): nat {
    if q == [] then 0 else (if q[0].header.IsResponse() then 0 else 1) + RequestCount(q[1..])
  }

  /** The requests among the inbound messages, in arrival order. */
  function RequestsIn(q: seq<MessageToMe>): seq<MessageToMe> {
    if q == [] then [] else (if q[0].header.IsResponse() then [] else [q[0]]) + RequestsIn(q[1..])
  }

  /** `t` is `base` followed by one worker request per message of `reqs`,
      in order, with the ids after `g` in turn. */
  predicate AppendedInOrder(t: seq<Request>, base: seq<Request>, g: int, reqs: seq<MessageToMe>) {
    && |t| == |base| + |reqs|
    && t[..|base|] == base
    && forall k | 0 <= k < |reqs| :: t[|base| + k] == Request(g + k + 1, reqs[k].header.serviceNameFrom, reqs[k].data)
  }

  /** One request in front of `rest`: its worker request comes first, with the next id. */
  lemma WorkerQueueExtends(base: seq<Request>, t: seq<Request>, m: MessageToMe, rest: seq<MessageToMe>, g: int)
    requires AppendedInOrder(t, base + [Request(g + 1, m.header.serviceNameFrom, m.data)], g + 1, rest)
    ensures AppendedInOrder(t, base, g, [m] + rest)
  {
    var n := |base|;
    assert t[..n] == t[..n + 1][..n];
    assert t[n] == t[..n + 1][n];
    forall k | 0 < k < |[m] + rest|
      ensures t[n + k] == Request(g + k + 1, ([m] + rest)[k].header.serviceNameFrom, ([m] + rest)[k].data)
    {
      assert ([m] + rest)[k] == rest[k - 1];
      assert t[n + 1 + (k - 1)] == Request(g + 1 + (k - 1) + 1, rest[k - 1].header.serviceNameFrom, rest[k - 1].data);
    }
  }

  /** What the pluggable service finder did for a destination name. */
  datatype Lookup = FinderThrew | NotFound | Found(service: ServiceInfo)

  /** The line the back-pressure step logs, if any. */
  datatype BackPressureLog = ApplyingBackPressure | RemovingBackPressure | NoBackPressureChange

  /** The fail-fast routing both send calls share: a finder that throws or
      knows no instance means ServiceNotFound; an instance not heard from for
      longer than `serviceUnavailableMillis` means ServiceNotResponsive. */
  function Route(lookup: Lookup, now: int, serviceUnavailableMillis: int): (r: Result<ServiceInfo, RequestStatus>)
    ensures r.Success? <==> lookup.Found? && now - lookup.service.lastHeardFromTimeMillis <= serviceUnavailableMillis
    ensures r.Success? ==> r.value == lookup.service
    ensures r.Failure? ==> r.error == if lookup.Found? then ServiceNotResponsive else ServiceNotFound
  {
    match lookup
    case FinderThrew => Failure(ServiceNotFound)
    case NotFound => Failure(ServiceNotFound)
    case Found(service) =>
      if now - service.lastHeardFromTimeMillis > serviceUnavailableMillis then Failure(ServiceNotResponsive)
      else Success(service)
  }

  /** A queued request that expects a response. */
  predicate IsCall(m: MessageFromMe) {
    m.header.responseMeta.None? && m.header.id.Some?
  }

  /** The shapes the three send calls give a queued message. */
  ghost predicate WellShaped(m: MessageFromMe) {
    if m.header.responseMeta.Some? then
      m.responseFuture.None? && m.serviceTo.None? && m.internalRequestId.Some?
    else
      && m.serviceTo.Some? && m.internalRequestId.None?
      && (m.header.id.Some? <==> m.responseFuture.Some?)
      && (m.header.id.Some? ==>
            && m.header.id.value > 0
            && m.responseFuture.value.requestId == m.header.id.value
            && m.responseFuture.value.requestStatus == Ok)
  }

  /** The ids an expiry list holds. */
  function IdsOf(es: seq<ExpiringId>): set<int> {
    if es == [] then {} else IdsOf(es[..|es| - 1]) + {es[|es| - 1].id}
  }

  /** The ids whose deadline is at or before `now`: what polling the delay
      queue drains. */
  function ExpiredIds(es: seq<ExpiringId>, now: int): set<int> {
    if es == [] then {}
    else ExpiredIds(es[..|es| - 1], now) + if es[|es| - 1].expireTimeMillis <= now then {es[|es| - 1].id} else {}
  }

  /** The entries still waiting after the drain, in list order. */
  function Unexpired(es: seq<ExpiringId>, now: int): seq<ExpiringId> {
    if es == [] then []
    else Unexpired(es[..|es| - 1], now) + if es[|es| - 1].expireTimeMillis > now then [es[|es| - 1]] else []
  }

  lemma {:induction false} IdsOfMembers(es: seq<ExpiringId>)
    ensures forall id :: id in IdsOf(es) <==> exists i | 0 <= i < |es| :: es[i].id == id
  {
    if es != [] {
      var init := es[..|es| - 1];
      IdsOfMembers(init);
      assert forall i | 0 <= i < |init| :: init[i] == es[i];
    }
  }

  lemma IdsOfSnoc(es: seq<ExpiringId>, e: ExpiringId)
    ensures IdsOf(es + [e]) == IdsOf(es) + {e.id}
  {
    assert (es + [e])[..|es|] == es;
  }

  /** Exactly the ids with an entry whose deadline has passed are drained. */
  lemma {:induction false} ExpiredIdsMembers(es: seq<ExpiringId>, now: int)
    ensures forall id :: id in ExpiredIds(es, now) <==>
      exists i | 0 <= i < |es| :: es[i].id == id && es[i].expireTimeMillis <= now
  {
    if es != [] {
      var init := es[..|es| - 1];
      ExpiredIdsMembers(init, now);
      assert forall i | 0 <= i < |init| :: init[i] == es[i];
    }
  }

  /** The drain keeps exactly the entries whose deadline is still ahead. */
  lemma {:induction false} UnexpiredMembers(es: seq<ExpiringId>, now: int)
    ensures |Unexpired(es, now)| <= |es|
    ensures forall e :: e in Unexpired(es, now) <==> e in es && e.expireTimeMillis > now
  {
    if es != [] {
      var init := es[..|es| - 1];
      UnexpiredMembers(init, now);
      assert es == init + [es[|es| - 1]];
    }
  }

  /** An id that had a deadline and was not drained keeps a deadline. */
  lemma SurvivorsKeepDeadline(es: seq<ExpiringId>, now: int)
    ensures IdsOf(es) <= ExpiredIds(es, now) + IdsOf(Unexpired(es, now))
  {
    IdsOfMembers(es);
    ExpiredIdsMembers(es, now);
    UnexpiredMembers(es, now);
    IdsOfMembers(Unexpired(es, now));
    forall id | id in IdsOf(es) && id !in ExpiredIds(es, now)
      ensures id in IdsOf(Unexpired(es, now))
    {
      var i :| 0 <= i < |es| && es[i].id == id;
      assert es[i] in Unexpired(es, now);
      var j :| 0 <= j < |Unexpired(es, now)| && Unexpired(es, now)[j] == es[i];
    }
  }

  /** Draining one more entry of an expiry list, in terms of a table the
      drained ids are removed from. */
  lemma ExpiredStep<V>(table0: map<int, V>, es: seq<ExpiringId>, i: nat, now: int)
    requires i < |es|
    ensures ExpiredIds(es[..i + 1], now) == ExpiredIds(es[..i], now) + if es[i].expireTimeMillis <= now then {es[i].id} else {}
    ensures Unexpired(es[..i + 1], now) == Unexpired(es[..i], now) + if es[i].expireTimeMillis > now then [es[i]] else []
    ensures es[i].expireTimeMillis <= now ==>
      (table0 - ExpiredIds(es[..i], now)) - {es[i].id} == table0 - ExpiredIds(es[..i + 1], now)
    ensures es[i].expireTimeMillis > now ==>
      table0 - ExpiredIds(es[..i], now) == table0 - ExpiredIds(es[..i + 1], now)
  {
    assert es[..i + 1][..i] == es[..i];
  }

  /** Draining one more id adds one to the drained pending count exactly
      when the id was pending and not drained before. */
  lemma DrainedCount(keys: set<int>, drained: set<int>, k: int)
    ensures |keys * (drained + {k})| == |keys * drained| + (if k in keys && k !in drained then 1 else 0)
  {
    if k in keys && k !in drained {
      assert keys * (drained + {k}) == keys * drained + {k};
    } else {
      assert keys * (drained + {k}) == keys * drained;
    }
  }

  /** The drained pending count after one more deadline. */
  lemma ExpiredCount<V>(table0: map<int, V>, es: seq<ExpiringId>, i: nat, now: int)
    requires i < |es|
    ensures |table0.Keys * ExpiredIds(es[..i + 1], now)| == |table0.Keys * ExpiredIds(es[..i], now)| +
      if es[i].expireTimeMillis <= now && es[i].id in table0 && es[i].id !in ExpiredIds(es[..i], now) then 1 else 0
  {
    ExpiredStep(table0, es, i, now);
    DrainedCount(table0.Keys, ExpiredIds(es[..i], now), es[i].id);
  }

  /** `timedOut` holds exactly the futures of the calls in `table0` whose
      ids were drained, each under its own id. */
  ghost predicate Collected(table0: map<int, RequestFromMeExpectingResponse>, drained: set<int>, timedOut: seq<ResponseFuture>) {
    && (forall k | k in table0 && k in drained :: table0[k].responseFuture in timedOut)
    && (forall j | 0 <= j < |timedOut| ::
          && timedOut[j].requestId in table0 && timedOut[j].requestId in drained
          && table0[timedOut[j].requestId].responseFuture == timedOut[j])
  }

  /** What the inbound drain makes of a response to me. */
  datatype ResponseVerdict = ResolvesPending | Unmatched | DispatcherDies

  /** As written: `requestsFromMeByRequestId.remove(header.id)` on a
      ConcurrentHashMap throws NullPointerException for a response that
      carries no id; nothing catches it, and the dispatcher thread ends. */
  function ResponseToMeAsWritten(id: Option<int>, pendingIds: set<int>): ResponseVerdict {
    if id.None? then DispatcherDies
    else if id.value in pendingIds then ResolvesPending
    else Unmatched
  }

  /** As intended: a response resolves the pending call it names; one that
      names none, or carries no id, is logged and dropped. */
  function ResponseToMe(id: Option<int>, pendingIds: set<int>): (v: ResponseVerdict)
    ensures v != DispatcherDies
    ensures v == ResolvesPending <==> id.Some? && id.value in pendingIds
    ensures id.Some? ==> v == ResponseToMeAsWritten(id, pendingIds)
  {
    if id.Some? && id.value in pendingIds then ResolvesPending else Unmatched
  }

  /** The transport lets a response without an id through, and the code as
      written then stops dispatching. */
  lemma IdlessResponseStopsDispatcher(pendingIds: set<int>)
    ensures var header := MessageHeader(Some("peer"), Some("svc"), None, Some(ResponseMeta(None, None, None)));
      && ServiceUdp.CheckHeader(header, "svc").Success?
      && ResponseToMeAsWritten(header.id, pendingIds) == DispatcherDies
      && ResponseToMe(header.id, pendingIds) == Unmatched
  {
    assert !IsWhitespace("peer"[0]);
    assert !IsWhitespace("svc"[0]);
  }

  /** Whether `datagramSocket.send` returns normally. A packet to a null
      address makes it throw, which `send` catches and reports as a failed
      send (ServiceUdp.java:168-173); for any other address the socket's
      verdict decides. */
  predicate SocketTakes(address: Option<Address>, port: int, socketAccepts: (Option<Address>, int) -> bool) {
    address.Some? && socketAccepts(address, port)
  }

  /** What the socket carries away for one `send`: the frame, when `send`
      builds one and the socket takes it. Nothing goes to a null address. */
  function Delivered(frame: Option<seq<byte>>, address: Option<Address>, port: int,
                     socketAccepts: (Option<Address>, int) -> bool): (ds: seq<Datagram>)
    ensures |ds| <= 1
    ensures ds != [] <==> frame.Some? && address.Some? && socketAccepts(address, port)
    ensures ds != [] ==> ds[0] == Datagram(frame.value, address, port)
  {
    if frame.Some? && SocketTakes(address, port, socketAccepts) then [Datagram(frame.value, address, port)] else []
  }

  class Processor {
    const config: Configuration.Config
    const emitter: Emitter.ServiceInfoEmitter
    const stats: Stats.PerMinuteStats
    /** `gson.toJson(header)` as UTF-8 bytes. */
    const toJson: MessageHeader -> seq<byte>

    var messagesToMe: seq<MessageToMe>
    var messagesFromMe: seq<MessageFromMe>
    var requestIdGenerator: int
    var requestsToMe: seq<Request>
    var requestsFromMeByRequestId: map<int, RequestFromMeExpectingResponse>
    var requestsToMeByInternalRequestId: map<int, RequestToMeExpectingResponse>
    var expiringRequestsFromMe: seq<ExpiringId>
    var expiringRequestsToMe: seq<ExpiringId>
    var die: bool
    /** The datagrams the socket has taken, oldest first. */
    var sent: seq<Datagram>
    /** Every future this dispatcher has handed to a caller of `sendRequestExpectResponse`. */
    ghost var futures: set<ResponseFuture>

    /** One generator hands out both call ids and internal ids, so every id
        in use is positive, at most the generator, and in one table only;
        the worker queue is in id order. */
    ghost predicate IdsIssued()
      reads this`requestIdGenerator, this`requestsFromMeByRequestId, this`requestsToMeByInternalRequestId, this`requestsToMe
    {
      && requestIdGenerator >= 0
      && (forall id | id in requestsFromMeByRequestId ::
            0 < id <= requestIdGenerator && id !in requestsToMeByInternalRequestId)
      && (forall id | id in requestsToMeByInternalRequestId :: 0 < id <= requestIdGenerator)
      && (forall i | 0 <= i < |requestsToMe| :: 0 < requestsToMe[i].internalRequestId <= requestIdGenerator)
      && (forall i, j | 0 <= i < j < |requestsToMe| ::
            requestsToMe[i].internalRequestId < requestsToMe[j].internalRequestId)
    }

    /** Queued messages have the shape their send call gave them, and a
        queued call's id is issued, distinct from the other queued calls'
        and in neither table yet. */
    ghost predicate QueueShaped()
      reads this`messagesFromMe, this`requestIdGenerator, this`requestsFromMeByRequestId, this`requestsToMeByInternalRequestId
    {
      && (forall i | 0 <= i < |messagesFromMe| :: WellShaped(messagesFromMe[i]))
      && (forall i | 0 <= i < |messagesFromMe| && IsCall(messagesFromMe[i]) ::
            && messagesFromMe[i].header.id.value <= requestIdGenerator
            && messagesFromMe[i].header.id.value !in requestsFromMeByRequestId
            && messagesFromMe[i].header.id.value !in requestsToMeByInternalRequestId)
      && (forall i, j | 0 <= i < j < |messagesFromMe| && IsCall(messagesFromMe[i]) && IsCall(messagesFromMe[j]) ::
            messagesFromMe[i].header.id != messagesFromMe[j].header.id)
    }

    /** A pending call is filed under its own id, and its future belongs to it. */
    ghost predicate PendingShaped()
      reads this`requestsFromMeByRequestId, this`futures
    {
      forall id | id in requestsFromMeByRequestId ::
        && requestsFromMeByRequestId[id].header.id == Some(id)
        && requestsFromMeByRequestId[id].responseFuture.requestId == id
        && requestsFromMeByRequestId[id].responseFuture.requestStatus == Ok
        && requestsFromMeByRequestId[id].responseFuture in futures
    }

    /** Every call still queued or pending has an unresolved future. */
    ghost predicate Unresolved()
      requires PendingShaped() && QueueShaped()
      reads this`requestsFromMeByRequestId, this`messagesFromMe, this`futures, futures
      reads this`requestIdGenerator, this`requestsToMeByInternalRequestId
    {
      && (forall id | id in requestsFromMeByRequestId :: requestsFromMeByRequestId[id].responseFuture.response.None?)
      && (forall i | 0 <= i < |messagesFromMe| && messagesFromMe[i].responseFuture.Some? ::
            messagesFromMe[i].responseFuture.value in futures)
      && (forall i | 0 <= i < |messagesFromMe| && messagesFromMe[i].responseFuture.Some? ::
            messagesFromMe[i].responseFuture.value.response.None?)
    }

    /** Every pending entry of either table has a deadline. */
    ghost predicate Deadlines()
      reads this`requestsFromMeByRequestId, this`expiringRequestsFromMe, this`requestsToMeByInternalRequestId, this`expiringRequestsToMe
    {
      && requestsFromMeByRequestId.Keys <= IdsOf(expiringRequestsFromMe)
      && requestsToMeByInternalRequestId.Keys <= IdsOf(expiringRequestsToMe)
    }

    ghost predicate Valid()
      reads this`messagesFromMe, this`requestIdGenerator, this`requestsToMe, this`requestsFromMeByRequestId,
        this`requestsToMeByInternalRequestId, this`expiringRequestsFromMe, this`expiringRequestsToMe, this`futures, futures
    {
      IdsIssued() && QueueShaped() && PendingShaped() && Unresolved() && Deadlines()
    }

    /** The futures of the calls now pending: the only ones the dispatcher resolves. */
    ghost function PendingFutures(): set<ResponseFuture>
      reads this`requestsFromMeByRequestId
    {
      set id | id in requestsFromMeByRequestId :: requestsFromMeByRequestId[id].responseFuture
    }

    /** The future of the call pending under `id`, if there is one: the only
        future a response or a deadline for `id` may resolve. */
    ghost function FutureOf(id: Option<int>): set<ResponseFuture>
      reads this`requestsFromMeByRequestId
    {
      if id.Some? && id.value in requestsFromMeByRequestId then {requestsFromMeByRequestId[id.value].responseFuture} else {}
    }

    /** Every pending call's future is a live one. */
    lemma PendingInFutures()
      requires Valid()
      ensures PendingFutures() <= futures
    {
    }

    /** A pending call's future is among the pending futures. */
    lemma FutureOfPending(id: Option<int>)
      ensures FutureOf(id) <= PendingFutures()
    {
      if id.Some? && id.value in requestsFromMeByRequestId {
        var k := id.value;
        assert k in requestsFromMeByRequestId && requestsFromMeByRequestId[k].responseFuture in PendingFutures();
      }
    }

    /** The datagrams one `send` adds to the wire. */
    function Wire(header: MessageHeader, data: Data, address: Option<Address>, port: int,
                  socketAccepts: (Option<Address>, int) -> bool): seq<Datagram>
    {
      Delivered(ServiceUdp.OutgoingFrame(header, data, config.maxMessageOutBytes, toJson), address, port, socketAccepts)
    }

    /** The fields an iteration changes, with `resolved` as the responses
        handed to futures so far. */
    ghost function StateOf(resolved: map<ResponseFuture, Response>): DispatchState
      reads this`requestsFromMeByRequestId, this`expiringRequestsFromMe, this`requestsToMeByInternalRequestId,
        this`expiringRequestsToMe, this`requestIdGenerator, this`requestsToMe, this`sent,
        stats`requestsSent, stats`responsesSent, stats`failedRequests, stats`failedResponses,
        stats`responsesReceived, stats`requestsReceived, stats`responsesDroppedByOthers, stats`responsesDroppedByMe
    {
      DispatchState(requestsFromMeByRequestId, expiringRequestsFromMe, requestsToMeByInternalRequestId,
        expiringRequestsToMe, requestIdGenerator, requestsToMe, sent,
        stats.requestsSent, stats.responsesSent, stats.failedRequests, stats.failedResponses,
        stats.responsesReceived, stats.requestsReceived, stats.responsesDroppedByOthers, stats.responsesDroppedByMe,
        resolved)
    }

    /** A response from me (Processor.java:208-222): its request's entry is
        removed; if the request was still waiting, the response goes to the
        request's sender. */
    ghost function RespondStep(s: DispatchState, m: MessageFromMe, socketAccepts: (Option<Address>, int) -> bool): DispatchState
      requires m.internalRequestId.Some?
    {
      var iid := m.internalRequestId.value;
      if iid !in s.requestsToMeTable then s.(requestsToMeTable := s.requestsToMeTable - {iid})
      else
        var original := s.requestsToMeTable[iid];
        var reply := m.header.(serviceNameTo := original.header.serviceNameFrom, id := original.header.id);
        var wire := Wire(reply, m.data, Some(original.serviceAddressFrom), original.servicePortFrom, socketAccepts);
        s.(requestsToMeTable := s.requestsToMeTable - {iid}, sent := s.sent + wire,
           responsesSent := s.responsesSent + 1, failedResponses := s.failedResponses + if wire == [] then 1 else 0)
    }

    /** A request from me (Processor.java:224-236): counted and sent; a call
        is filed first, with a deadline of the peer's timeout. */
    ghost function RequestStep(s: DispatchState, m: MessageFromMe, now: int,
                               socketAccepts: (Option<Address>, int) -> bool): DispatchState
      requires m.serviceTo.Some? && (m.header.id.Some? ==> m.responseFuture.Some?)
    {
      var service := m.serviceTo.value;
      var wire := Wire(m.header, m.data, service.address, service.udpPort, socketAccepts);
      s.(requestsFromMe := if m.header.id.None? then s.requestsFromMe else
           s.requestsFromMe[m.header.id.value := RequestFromMeExpectingResponse(m.header, m.responseFuture.value)],
         expiringFromMe := if m.header.id.None? then s.expiringFromMe else
           s.expiringFromMe + [ExpiringId(m.header.id.value, service.timeoutMillis, now + service.timeoutMillis)],
         sent := s.sent + wire, requestsSent := s.requestsSent + 1,
         failedRequests := s.failedRequests + if wire == [] then 1 else 0)
    }

    /** A state that differs from `s` only in the fields a request from me
        touches, each as `RequestStep` sets it, is `RequestStep`'s result. */
    lemma RequestStepFields(s: DispatchState, t: DispatchState, m: MessageFromMe, now: int,
                            socketAccepts: (Option<Address>, int) -> bool)
      requires m.serviceTo.Some? && (m.header.id.Some? ==> m.responseFuture.Some?)
      requires t.requestsToMeTable == s.requestsToMeTable && t.expiringToMe == s.expiringToMe
      requires t.requestIdGenerator == s.requestIdGenerator && t.requestsToMe == s.requestsToMe
      requires t.responsesSent == s.responsesSent && t.failedResponses == s.failedResponses
      requires t.responsesReceived == s.responsesReceived && t.requestsReceived == s.requestsReceived
      requires t.responsesDroppedByOthers == s.responsesDroppedByOthers
      requires t.responsesDroppedByMe == s.responsesDroppedByMe && t.resolved == s.resolved
      requires m.header.id.Some? ==>
        && t.requestsFromMe == s.requestsFromMe[m.header.id.value := RequestFromMeExpectingResponse(m.header, m.responseFuture.value)]
        && t.expiringFromMe == s.expiringFromMe +
             [ExpiringId(m.header.id.value, m.serviceTo.value.timeoutMillis, now + m.serviceTo.value.timeoutMillis)]
      requires m.header.id.None? ==> t.requestsFromMe == s.requestsFromMe && t.expiringFromMe == s.expiringFromMe
      requires t.sent == s.sent + Wire(m.header, m.data, m.serviceTo.value.address, m.serviceTo.value.udpPort, socketAccepts)
      requires t.requestsSent == s.requestsSent + 1
      requires t.failedRequests == s.failedRequests +
        if Wire(m.header, m.data, m.serviceTo.value.address, m.serviceTo.value.udpPort, socketAccepts) == [] then 1 else 0
      ensures t == RequestStep(s, m, now, socketAccepts)
    {
    }

    /** One message of the outbound drain (Processor.java:200-237). */
    ghost function OutboundStep(s: DispatchState, m: MessageFromMe, now: int,
                                socketAccepts: (Option<Address>, int) -> bool): DispatchState
      requires WellShaped(m)
    {
      if m.header.IsResponse() then RespondStep(s, m, socketAccepts) else RequestStep(s, m, now, socketAccepts)
    }

    /** One outbound message keeps every pending call as it was, files a call
        under its own id, and only removes requests to me. */
    lemma OutboundStepKeepsPending(s: DispatchState, m: MessageFromMe, now: int,
                                   socketAccepts: (Option<Address>, int) -> bool)
      requires WellShaped(m) && (IsCall(m) ==> m.header.id.value !in s.requestsFromMe)
      ensures var t := OutboundStep(s, m, now, socketAccepts);
        && (forall id | id in s.requestsFromMe :: id in t.requestsFromMe && t.requestsFromMe[id] == s.requestsFromMe[id])
        && (IsCall(m) ==>
              && m.header.id.value in t.requestsFromMe
              && t.requestsFromMe[m.header.id.value].responseFuture == m.responseFuture.value)
        && t.requestsToMeTable.Keys <= s.requestsToMeTable.Keys
    {
    }

    /** The outbound queue drained in order, head first. */
    ghost function OutboundAfter(s: DispatchState, q: seq<MessageFromMe>, now: int,
                                 socketAccepts: (Option<Address>, int) -> bool): DispatchState
      requires forall i | 0 <= i < |q| :: WellShaped(q[i])
      decreases |q|
    {
      if q == [] then s else OutboundAfter(OutboundStep(s, q[0], now, socketAccepts), q[1..], now, socketAccepts)
    }

    /** A response to me under the corrected verdict `ResponseToMe`
        (Processor.java:246-257): one that names a pending call removes it and
        resolves its future; any other changes nothing. As written, a response
        with no id ends the dispatcher instead (`ResponseToMeAsWritten`). */
    ghost function ReceiveResponseStep(s: DispatchState, m: MessageToMe): DispatchState
      requires m.header.IsResponse()
    {
      if ResponseToMe(m.header.id, s.requestsFromMe.Keys) == Unmatched then s
      else
        var id := m.header.id.value;
        var meta := m.header.responseMeta.value;
        s.(requestsFromMe := s.requestsFromMe - {id}, responsesReceived := s.responsesReceived + 1,
           resolved := s.resolved[s.requestsFromMe[id].responseFuture :=
             Response(false, m.header.serviceNameFrom, m.data, meta.code, meta.userMessage, meta.nerdDetail)])
    }

    /** A request to me (Processor.java:258-274): the next internal id, the
        request appended to the worker queue and, if its sender expects a
        response, an entry filed with my own timeout. */
    ghost function ReceiveRequestStep(s: DispatchState, m: MessageToMe, now: int): DispatchState {
      var iid := s.requestIdGenerator + 1;
      s.(requestIdGenerator := iid, requestsToMe := s.requestsToMe + [Request(iid, m.header.serviceNameFrom, m.data)],
         requestsReceived := s.requestsReceived + 1,
         requestsToMeTable := if m.header.id.None? then s.requestsToMeTable else
           s.requestsToMeTable[iid := RequestToMeExpectingResponse(m.header, m.serviceAddressFrom, m.servicePortFrom)],
         expiringToMe := if m.header.id.None? then s.expiringToMe else
           s.expiringToMe + [ExpiringId(iid, config.timeoutMillis, now + config.timeoutMillis)])
    }

    /** One message of the inbound drain (Processor.java:239-276), a response
        judged by the corrected `ResponseToMe`. */
    ghost function InboundStep(s: DispatchState, m: MessageToMe, now: int): DispatchState {
      if m.header.IsResponse() then ReceiveResponseStep(s, m) else ReceiveRequestStep(s, m, now)
    }

    /** A state that differs from `s` only where a response to me acts, each
        field as `ReceiveResponseStep` sets it, is that step's result. */
    lemma ReceiveResponseStepFields(s: DispatchState, t: DispatchState, m: MessageToMe)
      requires m.header.IsResponse()
      requires t.expiringFromMe == s.expiringFromMe && t.requestsToMeTable == s.requestsToMeTable
      requires t.expiringToMe == s.expiringToMe && t.requestIdGenerator == s.requestIdGenerator
      requires t.requestsToMe == s.requestsToMe && t.sent == s.sent
      requires t.requestsSent == s.requestsSent && t.responsesSent == s.responsesSent
      requires t.failedRequests == s.failedRequests && t.failedResponses == s.failedResponses
      requires t.requestsReceived == s.requestsReceived && t.responsesDroppedByOthers == s.responsesDroppedByOthers
      requires t.responsesDroppedByMe == s.responsesDroppedByMe
      requires ResponseToMe(m.header.id, s.requestsFromMe.Keys) == Unmatched ==>
        t.requestsFromMe == s.requestsFromMe && t.responsesReceived == s.responsesReceived && t.resolved == s.resolved
      requires ResponseToMe(m.header.id, s.requestsFromMe.Keys) == ResolvesPending ==>
        var id := m.header.id.value;
        var meta := m.header.responseMeta.value;
        && t.requestsFromMe == s.requestsFromMe - {id}
        && t.responsesReceived == s.responsesReceived + 1
        && t.resolved == s.resolved[s.requestsFromMe[id].responseFuture :=
             Response(false, m.header.serviceNameFrom, m.data, meta.code, meta.userMessage, meta.nerdDetail)]
      ensures t == ReceiveResponseStep(s, m)
    {
    }

    /** A state that differs from `s` only where a request to me acts, each
        field as `ReceiveRequestStep` sets it, is that step's result. */
    lemma ReceiveRequestStepFields(s: DispatchState, t: DispatchState, m: MessageToMe, now: int)
      requires t.requestsFromMe == s.requestsFromMe && t.expiringFromMe == s.expiringFromMe
      requires t.sent == s.sent && t.requestsSent == s.requestsSent && t.responsesSent == s.responsesSent
      requires t.failedRequests == s.failedRequests && t.failedResponses == s.failedResponses
      requires t.responsesReceived == s.responsesReceived && t.responsesDroppedByOthers == s.responsesDroppedByOthers
      requires t.responsesDroppedByMe == s.responsesDroppedByMe && t.resolved == s.resolved
      requires t.requestIdGenerator == s.requestIdGenerator + 1
      requires t.requestsToMe == s.requestsToMe + [Request(t.requestIdGenerator, m.header.serviceNameFrom, m.data)]
      requires t.requestsReceived == s.requestsReceived + 1
      requires m.header.id.Some? ==>
        && t.requestsToMeTable == s.requestsToMeTable[t.requestIdGenerator :=
             RequestToMeExpectingResponse(m.header, m.serviceAddressFrom, m.servicePortFrom)]
        && t.expiringToMe == s.expiringToMe + [ExpiringId(t.requestIdGenerator, config.timeoutMillis, now + config.timeoutMillis)]
      requires m.header.id.None? ==> t.requestsToMeTable == s.requestsToMeTable && t.expiringToMe == s.expiringToMe
      ensures t == ReceiveRequestStep(s, m, now)
    {
    }

    /** The inbound queue drained in order, head first, each response judged
        by the corrected `ResponseToMe`. */
    ghost function InboundAfter(s: DispatchState, q: seq<MessageToMe>, now: int): DispatchState
      decreases |q|
    {
      if q == [] then s else InboundAfter(InboundStep(s, q[0], now), q[1..], now)
    }

    /** The futures of the pending calls whose deadline is due. */
    ghost function TimedOutFutures(table: map<int, RequestFromMeExpectingResponse>, es: seq<ExpiringId>, now: int): set<ResponseFuture> {
      set id | id in table && id in ExpiredIds(es, now) :: table[id].responseFuture
    }

    /** The outbound deadline list expired (Processor.java:278-291). Due
        entries are drained; a pending call a due entry names is dropped,
        counted against the peer and resolved as timed out. */
    ghost function ExpiredFromMe(s: DispatchState, now: int): DispatchState {
      var due := ExpiredIds(s.expiringFromMe, now);
      s.(requestsFromMe := s.requestsFromMe - due, expiringFromMe := Unexpired(s.expiringFromMe, now),
         responsesDroppedByOthers := s.responsesDroppedByOthers + |s.requestsFromMe.Keys * due|,
         resolved := s.resolved + map f | f in TimedOutFutures(s.requestsFromMe, s.expiringFromMe, now) :: TimedOutResponse())
    }

    /** The inbound deadline list expired (Processor.java:293-302). Due
        entries are drained; a waiting request a due entry names is dropped
        and counted against me. */
    ghost function ExpiredToMe(s: DispatchState, now: int): DispatchState {
      var due := ExpiredIds(s.expiringToMe, now);
      s.(requestsToMeTable := s.requestsToMeTable - due, expiringToMe := Unexpired(s.expiringToMe, now),
         responsesDroppedByMe := s.responsesDroppedByMe + |s.requestsToMeTable.Keys * due|)
    }

    /** Both deadline lists expired, the outbound one first (Processor.java:278-302). */
    ghost function Expired(s: DispatchState, now: int): DispatchState {
      ExpiredToMe(ExpiredFromMe(s, now), now)
    }

    /** A state that differs from `s` only in what the outbound expiry
        touches, each as `ExpiredFromMe` sets it, is its result. */
    lemma ExpiredFromMeFields(s: DispatchState, t: DispatchState, now: int)
      requires t.requestsToMeTable == s.requestsToMeTable && t.expiringToMe == s.expiringToMe
      requires t.requestIdGenerator == s.requestIdGenerator && t.requestsToMe == s.requestsToMe
      requires t.sent == s.sent && t.requestsSent == s.requestsSent && t.responsesSent == s.responsesSent
      requires t.failedRequests == s.failedRequests && t.failedResponses == s.failedResponses
      requires t.responsesReceived == s.responsesReceived && t.requestsReceived == s.requestsReceived
      requires t.responsesDroppedByMe == s.responsesDroppedByMe
      requires t.requestsFromMe == s.requestsFromMe - ExpiredIds(s.expiringFromMe, now)
      requires t.expiringFromMe == Unexpired(s.expiringFromMe, now)
      requires t.responsesDroppedByOthers ==
        s.responsesDroppedByOthers + |s.requestsFromMe.Keys * ExpiredIds(s.expiringFromMe, now)|
      requires t.resolved == s.resolved + map f | f in TimedOutFutures(s.requestsFromMe, s.expiringFromMe, now) :: TimedOutResponse()
      ensures t == ExpiredFromMe(s, now)
    {
    }

    /** A state that differs from `s` only in what the inbound expiry
        touches, each as `ExpiredToMe` sets it, is its result. */
    lemma ExpiredToMeFields(s: DispatchState, t: DispatchState, now: int)
      requires t.requestsFromMe == s.requestsFromMe && t.expiringFromMe == s.expiringFromMe
      requires t.requestIdGenerator == s.requestIdGenerator && t.requestsToMe == s.requestsToMe
      requires t.sent == s.sent && t.requestsSent == s.requestsSent && t.responsesSent == s.responsesSent
      requires t.failedRequests == s.failedRequests && t.failedResponses == s.failedResponses
      requires t.responsesReceived == s.responsesReceived && t.requestsReceived == s.requestsReceived
      requires t.responsesDroppedByOthers == s.responsesDroppedByOthers && t.resolved == s.resolved
      requires t.requestsToMeTable == s.requestsToMeTable - ExpiredIds(s.expiringToMe, now)
      requires t.expiringToMe == Unexpired(s.expiringToMe, now)
      requires t.responsesDroppedByMe == s.responsesDroppedByMe + |s.requestsToMeTable.Keys * ExpiredIds(s.expiringToMe, now)|
      ensures t == ExpiredToMe(s, now)
    {
    }

    /** Every future in `resolved` holds the response recorded for it, and
        its call is no longer pending. */
    ghost predicate Settled(resolved: map<ResponseFuture, Response>)
      reads this`requestsFromMeByRequestId, resolved.Keys
    {
      forall f | f in resolved :: f.response == Some(resolved[f]) && f.requestId !in requestsFromMeByRequestId
    }

    /** The outbound drain counts each request as sent once. Every send it
        attempts either puts a datagram on the wire or is counted as failed.
        The wire only grows. */
    lemma {:induction false} OutboundAccounting(s: DispatchState, q: seq<MessageFromMe>, now: int,
                                                socketAccepts: (Option<Address>, int) -> bool)
      requires forall i | 0 <= i < |q| :: WellShaped(q[i])
      ensures var t := OutboundAfter(s, q, now, socketAccepts);
        && s.sent <= t.sent
        && t.requestsSent == s.requestsSent + RequestCount(q)
        && t.responsesSent - s.responsesSent <= |q| - RequestCount(q)
        && (|t.sent| - |s.sent|) + (t.failedRequests - s.failedRequests) + (t.failedResponses - s.failedResponses)
           == (t.requestsSent - s.requestsSent) + (t.responsesSent - s.responsesSent)
      decreases |q|
    {
      if q != [] {
        var s1 := OutboundStep(s, q[0], now, socketAccepts);
        OutboundAccounting(s1, q[1..], now, socketAccepts);
      }
    }

    /** The inbound drain hands the workers the inbound requests in arrival
        order, behind those already queued, with consecutive fresh internal
        ids; each is counted as received. */
    lemma {:induction false} InboundRequestsInOrder(s: DispatchState, q: seq<MessageToMe>, now: int)
      ensures var t := InboundAfter(s, q, now);
        && t.requestIdGenerator == s.requestIdGenerator + |RequestsIn(q)|
        && t.requestsReceived == s.requestsReceived + |RequestsIn(q)|
        && AppendedInOrder(t.requestsToMe, s.requestsToMe, s.requestIdGenerator, RequestsIn(q))
      decreases |q|
    {
      if q != [] {
        var s1 := InboundStep(s, q[0], now);
        InboundRequestsInOrder(s1, q[1..], now);
        if !q[0].header.IsResponse() {
          assert RequestsIn(q) == [q[0]] + RequestsIn(q[1..]);
          WorkerQueueExtends(s.requestsToMe, InboundAfter(s, q, now).requestsToMe, q[0], RequestsIn(q[1..]), s.requestIdGenerator);
        } else {
          assert RequestsIn(q) == RequestsIn(q[1..]);
          assert s1.requestsToMe == s.requestsToMe && s1.requestIdGenerator == s.requestIdGenerator;
        }
      }
    }

    /** The inbound drain only removes pending calls, unchanged otherwise, and
        counts one received response for each call it removes (responses
        judged by the corrected `ResponseToMe`). */
    lemma {:induction false} InboundResponsesAccounted(s: DispatchState, q: seq<MessageToMe>, now: int)
      ensures var t := InboundAfter(s, q, now);
        && t.requestsFromMe.Keys <= s.requestsFromMe.Keys
        && (forall id | id in t.requestsFromMe :: t.requestsFromMe[id] == s.requestsFromMe[id])
        && t.responsesReceived - s.responsesReceived == |s.requestsFromMe.Keys| - |t.requestsFromMe.Keys|
      decreases |q|
    {
      if q != [] {
        var s1 := InboundStep(s, q[0], now);
        InboundResponsesAccounted(s1, q[1..], now);
        if q[0].header.IsResponse() && ResponseToMe(q[0].header.id, s.requestsFromMe.Keys) != Unmatched {
          var id := q[0].header.id.value;
          assert s1.requestsFromMe.Keys == s.requestsFromMe.Keys - {id};
        }
      }
    }

    constructor(config: Configuration.Config, emitter: Emitter.ServiceInfoEmitter, toJson: MessageHeader -> seq<byte>)
      ensures Valid() && fresh(stats) && stats.Valid() && stats.Current() == Stats.Cleared
      ensures this.config == config && this.emitter == emitter && this.toJson == toJson
      ensures messagesToMe == [] && messagesFromMe == [] && requestsToMe == [] && requestIdGenerator == 0
      ensures requestsFromMeByRequestId == map[] && requestsToMeByInternalRequestId == map[]
      ensures expiringRequestsFromMe == [] && expiringRequestsToMe == [] && !die && sent == [] && futures == {}
    {
      this.config := config;
      this.emitter := emitter;
      this.toJson := toJson;
      stats := new Stats.PerMinuteStats();
      messagesToMe, messagesFromMe, requestsToMe := [], [], [];
      requestIdGenerator := 0;
      requestsFromMeByRequestId, requestsToMeByInternalRequestId := map[], map[];
      expiringRequestsFromMe, expiringRequestsToMe := [], [];
      die := false;
      sent := [];
      futures := {};
    }

    /** `die`: the loop stops before its next pass. */
    method Die()
      modifies this`die
      ensures die
    {
      die := true;
    }

    /** `acceptMessageToMe`: the transport appends an accepted message to the inbound queue. */
    method AcceptMessageToMe(message: MessageToMe)
      requires Valid()
      modifies this`messagesToMe
      ensures Valid() && messagesToMe == old(messagesToMe) + [message]
    {
      messagesToMe := messagesToMe + [message];
    }

    /** `sendRequestExpectResponse`: on a routing failure a future carrying
        the failure and no queued message; otherwise a fresh id, and a call
        queued with a fresh unresolved future. */
    method SendRequestExpectResponse(serviceNameTo: string, data: Data, lookup: Lookup, now: int)
      returns (future: ResponseFuture)
      requires Valid()
      modifies this`requestIdGenerator, this`messagesFromMe, this`futures, stats`failedRequests
      ensures Valid() && fresh(future) && future.response.None?
      ensures match Route(lookup, now, config.serviceUnavailableMillis)
        case Failure(status) =>
          && future.requestStatus == status
          && requestIdGenerator == old(requestIdGenerator) && messagesFromMe == old(messagesFromMe)
          && futures == old(futures)
          && stats.failedRequests == old(stats.failedRequests) + 1
        case Success(service) =>
          && future.requestStatus == Ok
          && requestIdGenerator == old(requestIdGenerator) + 1
          && messagesFromMe == old(messagesFromMe) + [MessageFromMe(
               MessageHeader(Some(config.serviceName), Some(serviceNameTo), Some(requestIdGenerator), None),
               data, Some(future), Some(service), None)]
          && futures == old(futures) + {future}
          && stats.failedRequests == old(stats.failedRequests)
    {
      var route := Route(lookup, now, config.serviceUnavailableMillis);
      if route.Failure? {
        stats.failedRequests := stats.failedRequests + 1;
        future := new ResponseFuture(route.error, 0);
        return;
      }
      future := QueueCall(serviceNameTo, data, route.value);
    }

    /** A routed call: the next id, a fresh unresolved future, and the call queued with both. */
    method QueueCall(serviceNameTo: string, data: Data, service: ServiceInfo) returns (future: ResponseFuture)
      requires Valid()
      modifies this`requestIdGenerator, this`messagesFromMe, this`futures
      ensures Valid() && fresh(future) && future.response.None? && future.requestStatus == Ok
      ensures requestIdGenerator == old(requestIdGenerator) + 1
      ensures messagesFromMe == old(messagesFromMe) + [MessageFromMe(
        MessageHeader(Some(config.serviceName), Some(serviceNameTo), Some(requestIdGenerator), None),
        data, Some(future), Some(service), None)]
      ensures futures == old(futures) + {future}
    {
      requestIdGenerator := requestIdGenerator + 1;
      var header := MessageHeader(Some(config.serviceName), Some(serviceNameTo), Some(requestIdGenerator), None);
      future := new ResponseFuture(Ok, requestIdGenerator);
      futures := futures + {future};
      messagesFromMe := messagesFromMe + [MessageFromMe(header, data, Some(future), Some(service), None)];
    }

    /** `sendRequest`: the same routing; a request queued without an id. */
    method SendRequest(serviceNameTo: string, data: Data, lookup: Lookup, now: int) returns (status: RequestStatus)
      requires Valid()
      modifies this`messagesFromMe, stats`failedRequests
      ensures Valid()
      ensures match Route(lookup, now, config.serviceUnavailableMillis)
        case Failure(error) =>
          && status == error
          && messagesFromMe == old(messagesFromMe)
          && stats.failedRequests == old(stats.failedRequests) + 1
        case Success(service) =>
          && status == Ok
          && messagesFromMe == old(messagesFromMe) + [MessageFromMe(
               MessageHeader(Some(config.serviceName), Some(serviceNameTo), None, None),
               data, None, Some(service), None)]
          && stats.failedRequests == old(stats.failedRequests)
    {
      var route := Route(lookup, now, config.serviceUnavailableMillis);
      if route.Failure? {
        stats.failedRequests := stats.failedRequests + 1;
        return route.error;
      }
      var header := MessageHeader(Some(config.serviceName), Some(serviceNameTo), None, None);
      messagesFromMe := messagesFromMe + [MessageFromMe(header, data, None, Some(route.value), None)];
      status := Ok;
    }

    /** `sendResponse`: a response queued under the internal id of the
        request it answers; destination and id are filled in when it is sent. */
    method SendResponse(internalRequestId: int, code: Option<int>, userMessage: Option<string>,
                        nerdDetail: Option<string>, data: Data)
      requires Valid()
      modifies this`messagesFromMe
      ensures Valid()
      ensures messagesFromMe == old(messagesFromMe) + [MessageFromMe(
        MessageHeader(Some(config.serviceName), None, None, Some(ResponseMeta(code, userMessage, nerdDetail))),
        data, None, None, Some(internalRequestId))]
    {
      var header := MessageHeader(Some(config.serviceName), None, None, Some(ResponseMeta(code, userMessage, nerdDetail)));
      messagesFromMe := messagesFromMe + [MessageFromMe(header, data, None, None, Some(internalRequestId))];
    }

    /** The worker's `pollFirst`: requests are handed out in arrival order. */
    method PollRequestToMe() returns (request: Option<Request>)
      requires Valid()
      modifies this`requestsToMe
      ensures Valid()
      ensures old(requestsToMe) == [] ==> request.None? && requestsToMe == []
      ensures old(requestsToMe) != [] ==> request == Some(old(requestsToMe)[0]) && requestsToMe == old(requestsToMe)[1..]
    {
      if requestsToMe == [] {
        return None;
      }
      request := Some(requestsToMe[0]);
      requestsToMe := requestsToMe[1..];
    }

    /** `processRequestMillis`: handed on to the statistics. */
    method ProcessRequestMillis(millis: int)
      requires stats.Valid()
      modifies stats`processRequestLowMillis, stats`processRequestHighMillis, stats`observed
      ensures stats.Valid() && stats.observed == old(stats.observed) + [millis]
    {
      stats.ProcessRequestMillis(millis);
    }

    /** The back-pressure step: announcements pause while the worker backlog
        exceeds the threshold and resume otherwise; only a change of state is logged. */
    method BackPressure(threshold: int) returns (log: BackPressureLog)
      modifies emitter`pause, stats`backPressureApplied
      ensures emitter.pause <==> |requestsToMe| > threshold
      ensures stats.backPressureApplied == (old(stats.backPressureApplied) || |requestsToMe| > threshold)
      ensures log == ApplyingBackPressure <==> |requestsToMe| > threshold && !old(emitter.pause)
      ensures log == RemovingBackPressure <==> |requestsToMe| <= threshold && old(emitter.pause)
    {
      log := NoBackPressureChange;
      if |requestsToMe| > threshold {
        stats.backPressureApplied := true;
        var wasPaused := emitter.Pause();
        if !wasPaused {
          log := ApplyingBackPressure;
        }
      } else {
        var wasPaused := emitter.Unpause();
        if wasPaused {
          log := RemovingBackPressure;
        }
      }
    }

    /** A message just taken off the outbound queue keeps its shape, and a
        call among them may be filed under its id. */
    ghost predicate Detached(m: MessageFromMe)
      reads this, futures
    {
      && WellShaped(m)
      && (IsCall(m) ==>
            && m.header.id.value <= requestIdGenerator
            && m.header.id.value !in requestsFromMeByRequestId
            && m.header.id.value !in requestsToMeByInternalRequestId
            && m.responseFuture.value in futures
            && m.responseFuture.value.response.None?
            && forall i | 0 <= i < |messagesFromMe| && IsCall(messagesFromMe[i]) ::
                 messagesFromMe[i].header.id != m.header.id)
    }

    /** `messagesFromMe.poll()` */
    method PollFromMe() returns (m: MessageFromMe)
      requires Valid() && messagesFromMe != []
      modifies this`messagesFromMe
      ensures Valid() && Detached(m)
      ensures m == old(messagesFromMe[0]) && messagesFromMe == old(messagesFromMe[1..])
    {
      m := messagesFromMe[0];
      ghost var q := messagesFromMe;
      messagesFromMe := messagesFromMe[1..];
      assert forall i | 0 <= i < |messagesFromMe| :: messagesFromMe[i] == q[i + 1];
    }

    /** A response from me: its request's entry is removed, and the response
        goes where that request came from, quoting its sender and id; when the
        request is no longer pending nothing is sent. */
    method RespondFromMe(m: MessageFromMe, socketAccepts: (Option<Address>, int) -> bool)
      requires Valid() && Detached(m) && m.header.IsResponse()
      modifies this`requestsToMeByInternalRequestId, this`sent, stats`responsesSent, stats`failedResponses
      ensures Valid()
      ensures StateOf(map[]) == RespondStep(old(StateOf(map[])), m, socketAccepts)
    {
      var iid := m.internalRequestId.value;
      if iid !in requestsToMeByInternalRequestId {
        requestsToMeByInternalRequestId := requestsToMeByInternalRequestId - {iid};
        return;
      }
      var original := requestsToMeByInternalRequestId[iid];
      requestsToMeByInternalRequestId := requestsToMeByInternalRequestId - {iid};
      stats.responsesSent := stats.responsesSent + 1;
      var reply := m.header.(serviceNameTo := original.header.serviceNameFrom, id := original.header.id);
      TransmitResponse(reply, m.data, Some(original.serviceAddressFrom), original.servicePortFrom, socketAccepts);
    }

    /** `requestsFromMeByRequestId.put` and `expiringRequestsFromMe.add` for a call. */
    method FileCall(m: MessageFromMe, now: int)
      requires Valid() && Detached(m) && IsCall(m)
      modifies this`requestsFromMeByRequestId, this`expiringRequestsFromMe
      ensures Valid()
      ensures requestsFromMeByRequestId == old(requestsFromMeByRequestId)[m.header.id.value :=
        RequestFromMeExpectingResponse(m.header, m.responseFuture.value)]
      ensures expiringRequestsFromMe == old(expiringRequestsFromMe) +
        [ExpiringId(m.header.id.value, m.serviceTo.value.timeoutMillis, now + m.serviceTo.value.timeoutMillis)]
    {
      var id := m.header.id.value;
      var deadline := ExpiringId(id, m.serviceTo.value.timeoutMillis, now + m.serviceTo.value.timeoutMillis);
      IdsOfSnoc(expiringRequestsFromMe, deadline);
      requestsFromMeByRequestId := requestsFromMeByRequestId[id := RequestFromMeExpectingResponse(m.header, m.responseFuture.value)];
      expiringRequestsFromMe := expiringRequestsFromMe + [deadline];
      assert IdsIssued();
      assert QueueShaped();
      assert PendingShaped();
      assert Unresolved();
    }

    /** A call is filed as pending with its deadline; any other request is not. */
    method FileIfCall(m: MessageFromMe, now: int)
      requires Valid() && Detached(m) && !m.header.IsResponse()
      modifies this`requestsFromMeByRequestId, this`expiringRequestsFromMe
      ensures Valid()
      ensures m.header.id.Some? ==>
        && requestsFromMeByRequestId == old(requestsFromMeByRequestId)[m.header.id.value :=
             RequestFromMeExpectingResponse(m.header, m.responseFuture.value)]
        && expiringRequestsFromMe == old(expiringRequestsFromMe) +
             [ExpiringId(m.header.id.value, m.serviceTo.value.timeoutMillis, now + m.serviceTo.value.timeoutMillis)]
      ensures m.header.id.None? ==>
        requestsFromMeByRequestId == old(requestsFromMeByRequestId) && expiringRequestsFromMe == old(expiringRequestsFromMe)
    {
      if m.header.id.Some? {
        FileCall(m, now);
      }
    }

    /** A request from me: counted and sent to its peer; a call is first filed
        as pending with a deadline of the peer's timeout, and stays filed even
        when the send fails. */
    method RequestFromMe(m: MessageFromMe, now: int, socketAccepts: (Option<Address>, int) -> bool)
      requires Valid() && Detached(m) && !m.header.IsResponse()
      modifies this`requestsFromMeByRequestId, this`expiringRequestsFromMe, this`sent,
               stats`requestsSent, stats`failedRequests
      ensures Valid()
      ensures StateOf(map[]) == RequestStep(old(StateOf(map[])), m, now, socketAccepts)
    {
      ghost var s0 := StateOf(map[]);
      FileIfCall(m, now);
      var service := m.serviceTo.value;
      TransmitRequest(m.header, m.data, service.address, service.udpPort, socketAccepts);
      RequestStepFields(s0, StateOf(map[]), m, now, socketAccepts);
    }

    /** One pass of the outbound drain: the message at the head of the queue
        is sent as a response or as a request, as `OutboundStep` describes. */
    method DrainOneFromMe(now: int, socketAccepts: (Option<Address>, int) -> bool)
      requires Valid() && messagesFromMe != []
      modifies this`messagesFromMe, this`requestsFromMeByRequestId, this`expiringRequestsFromMe,
               this`requestsToMeByInternalRequestId, this`sent,
               stats`requestsSent, stats`responsesSent, stats`failedRequests, stats`failedResponses
      ensures Valid()
      ensures messagesFromMe == old(messagesFromMe[1..])
      ensures WellShaped(old(messagesFromMe[0]))
      ensures StateOf(map[]) == OutboundStep(old(StateOf(map[])), old(messagesFromMe[0]), now, socketAccepts)
    {
      var m := PollFromMe();
      if m.header.responseMeta.Some? {
        RespondFromMe(m, socketAccepts);
      } else {
        RequestFromMe(m, now, socketAccepts);
      }
    }

    /** Drain the outbound queue head first, as `OutboundAfter` describes:
        every queued call is now pending with its own future, and no pending
        call is lost. */
    method DrainOutbound(now: int, socketAccepts: (Option<Address>, int) -> bool)
      requires Valid()
      modifies this`messagesFromMe, this`requestsFromMeByRequestId, this`expiringRequestsFromMe,
               this`requestsToMeByInternalRequestId, this`sent,
               stats`requestsSent, stats`responsesSent, stats`failedRequests, stats`failedResponses
      ensures Valid() && messagesFromMe == []
      ensures forall id | id in old(requestsFromMeByRequestId) ::
        id in requestsFromMeByRequestId && requestsFromMeByRequestId[id] == old(requestsFromMeByRequestId[id])
      ensures forall i | 0 <= i < |old(messagesFromMe)| && IsCall(old(messagesFromMe)[i]) ::
        && old(messagesFromMe)[i].header.id.value in requestsFromMeByRequestId
        && requestsFromMeByRequestId[old(messagesFromMe)[i].header.id.value].responseFuture
           == old(messagesFromMe)[i].responseFuture.value
      ensures requestsToMeByInternalRequestId.Keys <= old(requestsToMeByInternalRequestId).Keys
      ensures StateOf(map[]) == OutboundAfter(old(StateOf(map[])), old(messagesFromMe), now, socketAccepts)
    {
      ghost var queue := messagesFromMe;
      ghost var n := 0;
      while messagesFromMe != []
        invariant Valid()
        invariant 0 <= n <= |queue| && messagesFromMe == queue[n..]
        invariant forall id | id in old(requestsFromMeByRequestId) ::
          id in requestsFromMeByRequestId && requestsFromMeByRequestId[id] == old(requestsFromMeByRequestId[id])
        invariant forall i | 0 <= i < n && IsCall(queue[i]) ::
          && queue[i].header.id.value in requestsFromMeByRequestId
          && requestsFromMeByRequestId[queue[i].header.id.value].responseFuture == queue[i].responseFuture.value
        invariant requestsToMeByInternalRequestId.Keys <= old(requestsToMeByInternalRequestId).Keys
        invariant OutboundAfter(StateOf(map[]), messagesFromMe, now, socketAccepts)
          == OutboundAfter(old(StateOf(map[])), queue, now, socketAccepts)
        decreases |messagesFromMe|
      {
        assert queue[n] == messagesFromMe[0];
        ghost var before := StateOf(map[]);
        ghost var q := messagesFromMe;
        DrainOneFromMe(now, socketAccepts);
        OutboundStepKeepsPending(before, q[0], now, socketAccepts);
        assert OutboundAfter(before, q, now, socketAccepts)
          == OutboundAfter(OutboundStep(before, q[0], now, socketAccepts), q[1..], now, socketAccepts);
        n := n + 1;
      }
    }

    /** A response to me, under the corrected verdict `ResponseToMe`: when it
        names a pending call, that call's entry is removed and its future is
        resolved with what the response carries; otherwise it is logged and
        nothing changes. No other future moves. As written, a response with
        no id ends the dispatcher instead (`ResponseToMeAsWritten`). */
    method ResponseToMeArrives(m: MessageToMe, ghost resolved: map<ResponseFuture, Response>)
      returns (ghost resolvedNext: map<ResponseFuture, Response>)
      requires Valid() && m.header.IsResponse() && Settled(resolved)
      modifies this`requestsFromMeByRequestId, stats`responsesReceived, FutureOf(m.header.id)`response
      ensures Valid() && Settled(resolvedNext)
      ensures ResponseToMe(m.header.id, old(requestsFromMeByRequestId.Keys)) == ResolvesPending ==>
        var id := m.header.id.value;
        var f := old(requestsFromMeByRequestId[id]).responseFuture;
        var meta := m.header.responseMeta.value;
        var response := Response(false, m.header.serviceNameFrom, m.data, meta.code, meta.userMessage, meta.nerdDetail);
        && requestsFromMeByRequestId == old(requestsFromMeByRequestId) - {id}
        && f.response == Some(response)
        && resolvedNext == resolved[f := response]
        && stats.responsesReceived == old(stats.responsesReceived) + 1
      ensures ResponseToMe(m.header.id, old(requestsFromMeByRequestId.Keys)) == Unmatched ==>
        && requestsFromMeByRequestId == old(requestsFromMeByRequestId)
        && resolvedNext == resolved
        && stats.responsesReceived == old(stats.responsesReceived)
    {
      resolvedNext := resolved;
      if ResponseToMe(m.header.id, requestsFromMeByRequestId.Keys) == Unmatched {
        return;
      }
      var id := m.header.id.value;
      var request := requestsFromMeByRequestId[id];
      assert forall f | f in resolved :: f != request.responseFuture;
      requestsFromMeByRequestId := requestsFromMeByRequestId - {id};
      stats.responsesReceived := stats.responsesReceived + 1;
      var meta := m.header.responseMeta.value;
      var response := Response(false, m.header.serviceNameFrom, m.data, meta.code, meta.userMessage, meta.nerdDetail);
      request.responseFuture.Set(response);
      resolvedNext := resolved[request.responseFuture := response];
      assert PendingShaped();
      assert Unresolved();
    }

    /** A response to me, as `ReceiveResponseStep` describes: under the
        corrected `ResponseToMe`, not `ResponseToMeAsWritten`. */
    method ReceiveResponse(m: MessageToMe, ghost resolved: map<ResponseFuture, Response>)
      returns (ghost resolvedNext: map<ResponseFuture, Response>)
      requires Valid() && m.header.IsResponse() && Settled(resolved)
      modifies this`requestsFromMeByRequestId, stats`responsesReceived, FutureOf(m.header.id)`response
      ensures Valid() && Settled(resolvedNext) && PendingFutures() <= old(PendingFutures())
      ensures StateOf(resolvedNext) == ReceiveResponseStep(old(StateOf(resolved)), m)
    {
      ghost var s0 := StateOf(resolved);
      resolvedNext := ResponseToMeArrives(m, resolved);
      ReceiveResponseStepFields(s0, StateOf(resolvedNext), m);
    }

    /** A request to me: a fresh internal id, the request appended to the
        worker queue, and, when the sender expects a response, a pending entry
        with a deadline of my own timeout. */
    method RequestToMeArrives(m: MessageToMe, now: int)
      requires Valid() && !m.header.IsResponse()
      modifies this`requestIdGenerator, this`requestsToMe, this`requestsToMeByInternalRequestId,
               this`expiringRequestsToMe, stats`requestsReceived
      ensures Valid()
      ensures requestIdGenerator == old(requestIdGenerator) + 1
      ensures requestsToMe == old(requestsToMe) + [Request(requestIdGenerator, m.header.serviceNameFrom, m.data)]
      ensures stats.requestsReceived == old(stats.requestsReceived) + 1
      ensures m.header.id.Some? ==>
        && requestsToMeByInternalRequestId == old(requestsToMeByInternalRequestId)[requestIdGenerator :=
             RequestToMeExpectingResponse(m.header, m.serviceAddressFrom, m.servicePortFrom)]
        && expiringRequestsToMe == old(expiringRequestsToMe) +
             [ExpiringId(requestIdGenerator, config.timeoutMillis, now + config.timeoutMillis)]
      ensures m.header.id.None? ==>
        && requestsToMeByInternalRequestId == old(requestsToMeByInternalRequestId)
        && expiringRequestsToMe == old(expiringRequestsToMe)
    {
      var internalRequestId := IssueId();
      FileIfExpecting(internalRequestId, m, now);
      EnqueueRequestToMe(Request(internalRequestId, m.header.serviceNameFrom, m.data));
    }

    /** A request to me, as `ReceiveRequestStep` describes. */
    method ReceiveRequest(m: MessageToMe, now: int, ghost resolved: map<ResponseFuture, Response>)
      requires Valid() && !m.header.IsResponse()
      modifies this`requestIdGenerator, this`requestsToMe, this`requestsToMeByInternalRequestId,
               this`expiringRequestsToMe, stats`requestsReceived
      ensures Valid()
      ensures StateOf(resolved) == ReceiveRequestStep(old(StateOf(resolved)), m, now)
    {
      ghost var s0 := StateOf(resolved);
      RequestToMeArrives(m, now);
      ReceiveRequestStepFields(s0, StateOf(resolved), m, now);
    }

    /** The latest id, not yet used anywhere. */
    ghost predicate Unused(id: int)
      reads this
    {
      && 0 < id == requestIdGenerator
      && id !in requestsFromMeByRequestId && id !in requestsToMeByInternalRequestId
      && (forall i | 0 <= i < |messagesFromMe| && IsCall(messagesFromMe[i]) :: messagesFromMe[i].header.id.value != id)
      && (forall i | 0 <= i < |requestsToMe| :: requestsToMe[i].internalRequestId < id)
    }

    /** `perMinuteStats.requestsReceived++` and `requestIdGenerator.incrementAndGet()` */
    method IssueId() returns (id: int)
      requires Valid()
      modifies this`requestIdGenerator, stats`requestsReceived
      ensures Valid() && Unused(id) && id == old(requestIdGenerator) + 1
      ensures stats.requestsReceived == old(stats.requestsReceived) + 1
    {
      stats.requestsReceived := stats.requestsReceived + 1;
      requestIdGenerator := requestIdGenerator + 1;
      id := requestIdGenerator;
    }

    /** `requestsToMeByInternalRequestId.put` and `expiringRequestsToMe.add`. */
    method FileRequestToMe(id: int, m: MessageToMe, now: int)
      requires Valid() && Unused(id)
      modifies this`requestsToMeByInternalRequestId, this`expiringRequestsToMe
      ensures Valid()
      ensures forall i | 0 <= i < |requestsToMe| :: requestsToMe[i].internalRequestId < id
      ensures requestsToMeByInternalRequestId == old(requestsToMeByInternalRequestId)[id :=
        RequestToMeExpectingResponse(m.header, m.serviceAddressFrom, m.servicePortFrom)]
      ensures expiringRequestsToMe == old(expiringRequestsToMe) + [ExpiringId(id, config.timeoutMillis, now + config.timeoutMillis)]
    {
      var deadline := ExpiringId(id, config.timeoutMillis, now + config.timeoutMillis);
      IdsOfSnoc(expiringRequestsToMe, deadline);
      requestsToMeByInternalRequestId := requestsToMeByInternalRequestId[id :=
        RequestToMeExpectingResponse(m.header, m.serviceAddressFrom, m.servicePortFrom)];
      expiringRequestsToMe := expiringRequestsToMe + [deadline];
      assert IdsIssued();
      assert QueueShaped();
    }

    /** A request whose sender expects a response is filed with a deadline of
        my own timeout; any other is not. */
    method FileIfExpecting(id: int, m: MessageToMe, now: int)
      requires Valid() && Unused(id)
      modifies this`requestsToMeByInternalRequestId, this`expiringRequestsToMe
      ensures Valid()
      ensures forall i | 0 <= i < |requestsToMe| :: requestsToMe[i].internalRequestId < id
      ensures m.header.id.Some? ==>
        && requestsToMeByInternalRequestId == old(requestsToMeByInternalRequestId)[id :=
             RequestToMeExpectingResponse(m.header, m.serviceAddressFrom, m.servicePortFrom)]
        && expiringRequestsToMe == old(expiringRequestsToMe) + [ExpiringId(id, config.timeoutMillis, now + config.timeoutMillis)]
      ensures m.header.id.None? ==>
        requestsToMeByInternalRequestId == old(requestsToMeByInternalRequestId) && expiringRequestsToMe == old(expiringRequestsToMe)
    {
      if m.header.id.Some? {
        FileRequestToMe(id, m, now);
      }
    }

    /** `requestsToMe.addLast` */
    method EnqueueRequestToMe(request: Request)
      requires Valid() && 0 < request.internalRequestId == requestIdGenerator
      requires forall i | 0 <= i < |requestsToMe| :: requestsToMe[i].internalRequestId < request.internalRequestId
      modifies this`requestsToMe
      ensures Valid() && requestsToMe == old(requestsToMe) + [request]
    {
      requestsToMe := requestsToMe + [request];
    }

    /** One pass of the inbound drain: the message at the head of the queue
        is taken as a response or as a request, as `InboundStep` describes;
        `resolved` grows by the future the message resolves, if any.
        Responses are judged by the corrected `ResponseToMe`. */
    method DrainOneToMe(now: int, ghost resolved: map<ResponseFuture, Response>)
      returns (ghost resolvedNext: map<ResponseFuture, Response>)
      requires Valid() && messagesToMe != [] && Settled(resolved)
      modifies this`messagesToMe, this`requestsFromMeByRequestId, this`requestIdGenerator, this`requestsToMe,
               this`requestsToMeByInternalRequestId, this`expiringRequestsToMe,
               stats`responsesReceived, stats`requestsReceived, FutureOf(messagesToMe[0].header.id)`response
      ensures Valid() && Settled(resolvedNext) && PendingFutures() <= old(PendingFutures())
      ensures messagesToMe == old(messagesToMe[1..])
      ensures StateOf(resolvedNext) == InboundStep(old(StateOf(resolved)), old(messagesToMe[0]), now)
    {
      var m := PollToMe();
      if m.header.responseMeta.Some? {
        resolvedNext := ReceiveResponse(m, resolved);
      } else {
        ReceiveRequest(m, now, resolved);
        resolvedNext := resolved;
      }
    }

    /** `messagesToMe.poll()` */
    method PollToMe() returns (m: MessageToMe)
      requires Valid() && messagesToMe != []
      modifies this`messagesToMe
      ensures Valid() && m == old(messagesToMe[0]) && messagesToMe == old(messagesToMe[1..])
    {
      m := messagesToMe[0];
      messagesToMe := messagesToMe[1..];
    }

    /** Drain the inbound queue, head first, as `InboundAfter` describes:
        `resolved` holds the responses it handed to futures.
        Responses are judged by the corrected `ResponseToMe`. */
    method DrainInbound(now: int) returns (ghost resolved: map<ResponseFuture, Response>)
      requires Valid()
      modifies this`messagesToMe, this`requestsFromMeByRequestId, this`requestIdGenerator, this`requestsToMe,
               this`requestsToMeByInternalRequestId, this`expiringRequestsToMe,
               stats`responsesReceived, stats`requestsReceived, PendingFutures()`response
      ensures Valid() && messagesToMe == [] && Settled(resolved)
      ensures StateOf(resolved) == InboundAfter(old(StateOf(map[])), old(messagesToMe), now)
      ensures AppendedInOrder(requestsToMe, old(requestsToMe), old(requestIdGenerator), RequestsIn(old(messagesToMe)))
      ensures old(requestsToMe) <= requestsToMe
      ensures requestsFromMeByRequestId.Keys <= old(requestsFromMeByRequestId).Keys
      ensures forall id | id in requestsFromMeByRequestId :: requestsFromMeByRequestId[id] == old(requestsFromMeByRequestId[id])
    {
      ghost var queue := messagesToMe;
      ghost var s0 := StateOf(map[]);
      resolved := map[];
      while messagesToMe != []
        invariant Valid() && Settled(resolved) && PendingFutures() <= old(PendingFutures())
        invariant InboundAfter(StateOf(resolved), messagesToMe, now) == InboundAfter(old(StateOf(map[])), queue, now)
        decreases |messagesToMe|
      {
        ghost var before := StateOf(resolved);
        ghost var q := messagesToMe;
        FutureOfPending(messagesToMe[0].header.id);
        resolved := DrainOneToMe(now, resolved);
        assert InboundAfter(before, q, now) == InboundAfter(InboundStep(before, q[0], now), q[1..], now);
      }
      InboundRequestsInOrder(s0, queue, now);
      InboundResponsesAccounted(s0, queue, now);
    }

    /** A future whose call is neither pending nor queued: resolving it
        disturbs no call the dispatcher still tracks. */
    ghost predicate Retired(f: ResponseFuture)
      reads this`futures, this`requestsFromMeByRequestId, this`messagesFromMe
    {
      && f in futures
      && f.requestId !in requestsFromMeByRequestId
      && forall i | 0 <= i < |messagesFromMe| && IsCall(messagesFromMe[i]) :: messagesFromMe[i].header.id.value != f.requestId
    }

    /** A drained deadline for a call of mine: when the call is still
        pending it is removed and counted as dropped by the peer, and its
        future is handed back to be timed out; when it was answered already
        nothing happens. */
    method DropCall(id: int) returns (dropped: Option<ResponseFuture>)
      requires Valid()
      modifies this`requestsFromMeByRequestId, stats`responsesDroppedByOthers
      ensures Valid()
      ensures requestsFromMeByRequestId == old(requestsFromMeByRequestId) - {id}
      ensures id in old(requestsFromMeByRequestId) ==>
        && dropped == Some(old(requestsFromMeByRequestId)[id].responseFuture)
        && stats.responsesDroppedByOthers == old(stats.responsesDroppedByOthers) + 1
      ensures id !in old(requestsFromMeByRequestId) ==>
        && dropped == None
        && stats.responsesDroppedByOthers == old(stats.responsesDroppedByOthers)
    {
      dropped := None;
      if id in requestsFromMeByRequestId {
        dropped := Some(requestsFromMeByRequestId[id].responseFuture);
        stats.responsesDroppedByOthers := stats.responsesDroppedByOthers + 1;
      }
      requestsFromMeByRequestId := requestsFromMeByRequestId - {id};
    }

    /** One deadline of the outbound drain: the call it names is dropped when
        the deadline is due and the call still pending, and its future joins
        `timedOut`, the futures of the calls dropped so far. */
    method DropStepFromMe(es: seq<ExpiringId>, i: nat, kept: seq<ExpiringId>, now: int,
                          ghost table0: map<int, RequestFromMeExpectingResponse>, ghost drained: set<int>,
                          timedOut: seq<ResponseFuture>)
      returns (next: seq<ExpiringId>, ghost drainedNext: set<int>, timedOutNext: seq<ResponseFuture>)
      requires Valid() && i < |es|
      requires kept == Unexpired(es[..i], now) && drained == ExpiredIds(es[..i], now)
      requires requestsFromMeByRequestId == table0 - drained
      requires Collected(table0, drained, timedOut)
      requires forall j | 0 <= j < |timedOut| :: Retired(timedOut[j])
      modifies this`requestsFromMeByRequestId, stats`responsesDroppedByOthers
      ensures Valid()
      ensures next == Unexpired(es[..i + 1], now) && drainedNext == ExpiredIds(es[..i + 1], now)
      ensures requestsFromMeByRequestId == table0 - drainedNext
      ensures stats.responsesDroppedByOthers == old(stats.responsesDroppedByOthers) +
        if es[i].expireTimeMillis <= now && es[i].id in table0 && es[i].id !in drained then 1 else 0
      ensures Collected(table0, drainedNext, timedOutNext)
      ensures forall j | 0 <= j < |timedOutNext| :: Retired(timedOutNext[j])
    {
      var e := es[i];
      ExpiredStep(table0, es, i, now);
      next, drainedNext, timedOutNext := kept, drained, timedOut;
      if e.expireTimeMillis <= now {
        var dropped := DropCall(e.id);
        if dropped.Some? {
          timedOutNext := timedOut + [dropped.value];
        }
        drainedNext := drained + {e.id};
      } else {
        next := kept + [e];
      }
    }

    /** The outbound drain proper: the deadline list is walked in order; each
        due deadline drops its call when it is still pending. Returns the
        deadlines not yet due and the futures of the dropped calls. */
    method DrainDeadlinesFromMe(now: int) returns (kept: seq<ExpiringId>, timedOut: seq<ResponseFuture>)
      requires Valid()
      modifies this`requestsFromMeByRequestId, stats`responsesDroppedByOthers
      ensures Valid()
      ensures kept == Unexpired(expiringRequestsFromMe, now)
      ensures requestsFromMeByRequestId == old(requestsFromMeByRequestId) - ExpiredIds(expiringRequestsFromMe, now)
      ensures stats.responsesDroppedByOthers == old(stats.responsesDroppedByOthers) +
        |old(requestsFromMeByRequestId).Keys * ExpiredIds(expiringRequestsFromMe, now)|
      ensures Collected(old(requestsFromMeByRequestId), ExpiredIds(expiringRequestsFromMe, now), timedOut)
      ensures forall j | 0 <= j < |timedOut| :: Retired(timedOut[j])
    {
      var es := expiringRequestsFromMe;
      ghost var table0 := requestsFromMeByRequestId;
      ghost var drained: set<int> := {};
      timedOut := [];
      kept := [];
      var i := 0;
      while i < |es|
        invariant Valid() && 0 <= i <= |es|
        invariant kept == Unexpired(es[..i], now) && drained == ExpiredIds(es[..i], now)
        invariant requestsFromMeByRequestId == table0 - drained
        invariant stats.responsesDroppedByOthers == old(stats.responsesDroppedByOthers) + |table0.Keys * drained|
        invariant Collected(table0, drained, timedOut)
        invariant forall j | 0 <= j < |timedOut| :: Retired(timedOut[j])
      {
        ExpiredCount(table0, es, i, now);
        kept, drained, timedOut := DropStepFromMe(es, i, kept, now, table0, drained, timedOut);
        i := i + 1;
      }
      assert es[..i] == es;
    }

    /** The first half of the outbound expiry: every deadline at or before
        `now` is drained, and each call it names that is still pending is
        dropped and counted once; their futures are returned. */
    method DropExpiredCalls(now: int) returns (timedOut: seq<ResponseFuture>)
      requires Valid()
      modifies this`requestsFromMeByRequestId, this`expiringRequestsFromMe, stats`responsesDroppedByOthers
      ensures Valid()
      ensures expiringRequestsFromMe == Unexpired(old(expiringRequestsFromMe), now)
      ensures requestsFromMeByRequestId == old(requestsFromMeByRequestId) - ExpiredIds(old(expiringRequestsFromMe), now)
      ensures stats.responsesDroppedByOthers == old(stats.responsesDroppedByOthers) +
        |old(requestsFromMeByRequestId).Keys * ExpiredIds(old(expiringRequestsFromMe), now)|
      ensures Collected(old(requestsFromMeByRequestId), ExpiredIds(old(expiringRequestsFromMe), now), timedOut)
      ensures forall j | 0 <= j < |timedOut| :: Retired(timedOut[j])
    {
      var kept;
      kept, timedOut := DrainDeadlinesFromMe(now);
      SurvivorsKeepDeadline(expiringRequestsFromMe, now);
      KeepDeadlinesFromMe(kept);
    }

    /** One retired call's future resolved as timed out. */
    method TimeOut(f: ResponseFuture)
      requires Valid() && Retired(f)
      modifies f`response
      ensures Valid() && f.response == Some(TimedOutResponse())
    {
      f.Set(TimedOutResponse());
      assert Unresolved();
    }

    /** The second half of the outbound expiry: every dropped call's future
        is resolved as timed out. */
    method TimeOutCalls(timedOut: seq<ResponseFuture>)
      requires Valid() && forall j | 0 <= j < |timedOut| :: Retired(timedOut[j])
      modifies timedOut`response
      ensures Valid()
      ensures forall j | 0 <= j < |timedOut| :: timedOut[j].response == Some(TimedOutResponse())
    {
      var j := 0;
      while j < |timedOut|
        invariant 0 <= j <= |timedOut| && Valid()
        invariant forall q | 0 <= q < j :: timedOut[q].response == Some(TimedOutResponse())
      {
        TimeOut(timedOut[j]);
        j := j + 1;
      }
    }

    /** The outbound expiry: every deadline at or before `now` is drained;
        each call it names that is still pending is dropped, counted once and
        resolved as timed out. */
    method ExpireOutbound(now: int)
      requires Valid()
      modifies this`requestsFromMeByRequestId, this`expiringRequestsFromMe, stats`responsesDroppedByOthers, PendingFutures()`response
      ensures Valid()
      ensures expiringRequestsFromMe == Unexpired(old(expiringRequestsFromMe), now)
      ensures requestsFromMeByRequestId == old(requestsFromMeByRequestId) - ExpiredIds(old(expiringRequestsFromMe), now)
      ensures forall id | id in old(requestsFromMeByRequestId) && id in ExpiredIds(old(expiringRequestsFromMe), now) ::
        old(requestsFromMeByRequestId)[id].responseFuture.response == Some(TimedOutResponse())
      ensures stats.responsesDroppedByOthers == old(stats.responsesDroppedByOthers) +
        |old(requestsFromMeByRequestId).Keys * ExpiredIds(old(expiringRequestsFromMe), now)|
    {
      var timedOut := DropExpiredCalls(now);
      TimeOutCalls(timedOut);
    }

    /** The outbound deadline list after a drain. */
    method KeepDeadlinesFromMe(kept: seq<ExpiringId>)
      requires Valid() && requestsFromMeByRequestId.Keys <= IdsOf(kept)
      modifies this`expiringRequestsFromMe
      ensures Valid() && expiringRequestsFromMe == kept
    {
      expiringRequestsFromMe := kept;
    }

    /** A drained deadline for a request to me: when it is still waiting for
        my service's response it is removed and counted as dropped by me. */
    method ExpireRequestToMe(id: int)
      requires Valid()
      modifies this`requestsToMeByInternalRequestId, stats`responsesDroppedByMe
      ensures Valid()
      ensures requestsToMeByInternalRequestId == old(requestsToMeByInternalRequestId) - {id}
      ensures stats.responsesDroppedByMe ==
        old(stats.responsesDroppedByMe) + (if id in old(requestsToMeByInternalRequestId) then 1 else 0)
    {
      if id in requestsToMeByInternalRequestId {
        stats.responsesDroppedByMe := stats.responsesDroppedByMe + 1;
      }
      requestsToMeByInternalRequestId := requestsToMeByInternalRequestId - {id};
    }

    /** One entry of the inbound deadline list: a passed deadline expires its request. */
    method ExpireStepToMe(es: seq<ExpiringId>, i: nat, kept: seq<ExpiringId>, now: int,
                          ghost table0: map<int, RequestToMeExpectingResponse>, ghost drained: set<int>)
      returns (next: seq<ExpiringId>, ghost drainedNext: set<int>)
      requires Valid() && i < |es|
      requires kept == Unexpired(es[..i], now) && drained == ExpiredIds(es[..i], now)
      requires requestsToMeByInternalRequestId == table0 - drained
      modifies this`requestsToMeByInternalRequestId, stats`responsesDroppedByMe
      ensures Valid()
      ensures next == Unexpired(es[..i + 1], now) && drainedNext == ExpiredIds(es[..i + 1], now)
      ensures requestsToMeByInternalRequestId == table0 - drainedNext
      ensures stats.responsesDroppedByMe - old(stats.responsesDroppedByMe)
        == |table0.Keys * drainedNext| - |table0.Keys * drained|
    {
      var e := es[i];
      ExpiredStep(table0, es, i, now);
      next, drainedNext := kept, drained;
      if e.expireTimeMillis <= now {
        DrainedCount(table0.Keys, drained, e.id);
        ExpireRequestToMe(e.id);
        drainedNext := drained + {e.id};
      } else {
        next := kept + [e];
      }
    }

    /** The inbound drain loop: the deadlines that stay, each passed one
        having expired its request. */
    method DrainDeadlinesToMe(now: int) returns (kept: seq<ExpiringId>)
      requires Valid()
      modifies this`requestsToMeByInternalRequestId, stats`responsesDroppedByMe
      ensures Valid()
      ensures kept == Unexpired(expiringRequestsToMe, now)
      ensures requestsToMeByInternalRequestId == old(requestsToMeByInternalRequestId) - ExpiredIds(expiringRequestsToMe, now)
      ensures stats.responsesDroppedByMe == old(stats.responsesDroppedByMe) +
        |old(requestsToMeByInternalRequestId).Keys * ExpiredIds(expiringRequestsToMe, now)|
    {
      var es := expiringRequestsToMe;
      ghost var table0 := requestsToMeByInternalRequestId;
      ghost var drained: set<int> := {};
      kept := [];
      var i := 0;
      while i < |es|
        invariant Valid() && 0 <= i <= |es|
        invariant kept == Unexpired(es[..i], now) && drained == ExpiredIds(es[..i], now)
        invariant requestsToMeByInternalRequestId == table0 - drained
        invariant stats.responsesDroppedByMe == old(stats.responsesDroppedByMe) + |table0.Keys * drained|
      {
        kept, drained := ExpireStepToMe(es, i, kept, now, table0, drained);
        i := i + 1;
      }
      assert es[..i] == es;
    }

    /** The inbound expiry: every deadline at or before `now` is drained; each
        request to me it names that is still waiting is dropped and counted once. */
    method ExpireInbound(now: int)
      requires Valid()
      modifies this`requestsToMeByInternalRequestId, this`expiringRequestsToMe, stats`responsesDroppedByMe
      ensures Valid()
      ensures expiringRequestsToMe == Unexpired(old(expiringRequestsToMe), now)
      ensures requestsToMeByInternalRequestId == old(requestsToMeByInternalRequestId) - ExpiredIds(old(expiringRequestsToMe), now)
      ensures stats.responsesDroppedByMe == old(stats.responsesDroppedByMe) +
        |old(requestsToMeByInternalRequestId).Keys * ExpiredIds(old(expiringRequestsToMe), now)|
    {
      var kept := DrainDeadlinesToMe(now);
      SurvivorsKeepDeadline(expiringRequestsToMe, now);
      KeepDeadlinesToMe(kept);
    }

    /** The inbound expiry, as `ExpiredToMe` describes. */
    method ExpireToMe(now: int, ghost resolved: map<ResponseFuture, Response>)
      requires Valid()
      modifies this`requestsToMeByInternalRequestId, this`expiringRequestsToMe, stats`responsesDroppedByMe
      ensures Valid()
      ensures StateOf(resolved) == ExpiredToMe(old(StateOf(resolved)), now)
      ensures forall e | e in expiringRequestsToMe :: e.expireTimeMillis > now
      ensures Settled(resolved) == old(Settled(resolved))
    {
      ghost var s0 := StateOf(resolved);
      ExpireInbound(now);
      ExpiredToMeFields(s0, StateOf(resolved), now);
      UnexpiredMembers(s0.expiringToMe, now);
    }

    /** Both queues drained, the outbound one first, as `OutboundAfter` and
        then `InboundAfter` describe.
        Responses are judged by the corrected `ResponseToMe`. */
    method DrainQueues(now: int, socketAccepts: (Option<Address>, int) -> bool)
      returns (ghost resolved: map<ResponseFuture, Response>)
      requires Valid()
      modifies this`messagesFromMe, this`messagesToMe, this`requestIdGenerator, this`requestsToMe,
               this`requestsFromMeByRequestId, this`expiringRequestsFromMe,
               this`requestsToMeByInternalRequestId, this`expiringRequestsToMe, this`sent,
               stats`requestsSent, stats`responsesSent, stats`failedRequests, stats`failedResponses,
               stats`responsesReceived, stats`requestsReceived, futures`response
      ensures Valid() && messagesFromMe == [] && messagesToMe == [] && Settled(resolved)
      ensures StateOf(resolved) == InboundAfter(OutboundAfter(old(StateOf(map[])), old(messagesFromMe), now, socketAccepts),
                                                old(messagesToMe), now)
    {
      DrainOutbound(now, socketAccepts);
      PendingInFutures();
      resolved := DrainInbound(now);
    }

    /** Both deadline lists expired, as `Expired` describes: the timed-out
        futures join `resolved`, and every deadline left is still ahead. */
    method ExpireDeadlines(now: int, ghost resolved: map<ResponseFuture, Response>)
      returns (ghost resolvedNext: map<ResponseFuture, Response>)
      requires Valid() && Settled(resolved)
      modifies this`requestsFromMeByRequestId, this`expiringRequestsFromMe,
               this`requestsToMeByInternalRequestId, this`expiringRequestsToMe,
               stats`responsesDroppedByOthers, stats`responsesDroppedByMe, futures`response
      ensures Valid() && Settled(resolvedNext)
      ensures unchanged(this`messagesFromMe, this`messagesToMe)
      ensures StateOf(resolvedNext) == Expired(old(StateOf(resolved)), now)
      ensures forall e | e in expiringRequestsFromMe :: e.expireTimeMillis > now
      ensures forall e | e in expiringRequestsToMe :: e.expireTimeMillis > now
    {
      resolvedNext := ExpireFromMe(now, resolved);
      ExpireToMe(now, resolvedNext);
    }

    /** After the outbound expiry, the futures it timed out join those
        already settled. */
    lemma TimedOutSettled(resolved: map<ResponseFuture, Response>, table0: map<int, RequestFromMeExpectingResponse>,
                          es0: seq<ExpiringId>, now: int)
      requires forall f | f in resolved :: f.response == Some(resolved[f]) && f.requestId !in table0
      requires forall id | id in table0 :: table0[id].responseFuture.requestId == id
      requires forall id | id in table0 && id in ExpiredIds(es0, now) :: table0[id].responseFuture.response == Some(TimedOutResponse())
      requires requestsFromMeByRequestId == table0 - ExpiredIds(es0, now)
      ensures Settled(resolved + map f | f in TimedOutFutures(table0, es0, now) :: TimedOutResponse())
    {
      var resolvedNext := resolved + map f | f in TimedOutFutures(table0, es0, now) :: TimedOutResponse();
      forall f | f in resolvedNext
        ensures f.response == Some(resolvedNext[f]) && f.requestId !in requestsFromMeByRequestId
      {
        if f in TimedOutFutures(table0, es0, now) {
          var id :| id in table0 && id in ExpiredIds(es0, now) && table0[id].responseFuture == f;
        } else {
          assert f in resolved && resolvedNext[f] == resolved[f];
        }
      }
    }

    /** No settled future is the future of a pending call, and every pending
        call's future carries its own id. */
    lemma SettledNotPending(resolved: map<ResponseFuture, Response>)
      requires PendingShaped() && Settled(resolved)
      ensures forall f | f in resolved :: f !in PendingFutures()
      ensures forall id | id in requestsFromMeByRequestId :: requestsFromMeByRequestId[id].responseFuture.requestId == id
    {
    }

    /** The outbound expiry, as `ExpiredFromMe` describes. */
    method ExpireFromMe(now: int, ghost resolved: map<ResponseFuture, Response>)
      returns (ghost resolvedNext: map<ResponseFuture, Response>)
      requires Valid() && Settled(resolved)
      modifies this`requestsFromMeByRequestId, this`expiringRequestsFromMe, stats`responsesDroppedByOthers, futures`response
      ensures Valid() && Settled(resolvedNext)
      ensures StateOf(resolvedNext) == ExpiredFromMe(old(StateOf(resolved)), now)
      ensures forall e | e in expiringRequestsFromMe :: e.expireTimeMillis > now
    {
      ghost var s0 := StateOf(resolved);
      resolvedNext := ExpireCalls(now, resolved);
      ExpiredFromMeFields(s0, StateOf(resolvedNext), now);
      UnexpiredMembers(s0.expiringFromMe, now);
    }

    /** The outbound expiry with the futures it resolves: those of the pending
        calls a due deadline names, each now holding the timed-out response. */
    method ExpireCalls(now: int, ghost resolved: map<ResponseFuture, Response>)
      returns (ghost resolvedNext: map<ResponseFuture, Response>)
      requires Valid() && Settled(resolved)
      modifies this`requestsFromMeByRequestId, this`expiringRequestsFromMe, stats`responsesDroppedByOthers, futures`response
      ensures Valid() && Settled(resolvedNext)
      ensures resolvedNext ==
        resolved + map f | f in TimedOutFutures(old(requestsFromMeByRequestId), old(expiringRequestsFromMe), now) :: TimedOutResponse()
      ensures expiringRequestsFromMe == Unexpired(old(expiringRequestsFromMe), now)
      ensures requestsFromMeByRequestId == old(requestsFromMeByRequestId) - ExpiredIds(old(expiringRequestsFromMe), now)
      ensures stats.responsesDroppedByOthers == old(stats.responsesDroppedByOthers) +
        |old(requestsFromMeByRequestId).Keys * ExpiredIds(old(expiringRequestsFromMe), now)|
    {
      ghost var table0 := requestsFromMeByRequestId;
      ghost var es0 := expiringRequestsFromMe;
      PendingInFutures();
      SettledNotPending(resolved);
      ExpireOutbound(now);
      resolvedNext := resolved + map f | f in TimedOutFutures(table0, es0, now) :: TimedOutResponse();
      TimedOutSettled(resolved, table0, es0, now);
    }

    /** One iteration of the dispatcher loop: back pressure from the worker
        backlog, then both queues drained, then both deadline lists expired,
        as `Expired`, `InboundAfter` and `OutboundAfter` describe; afterwards
        no queued message is left and every remaining deadline is still ahead.
        `resolved` holds the responses the iteration handed to futures.
        Responses are judged by the corrected `ResponseToMe`. */
    method RunIteration(now: int, threshold: int, socketAccepts: (Option<Address>, int) -> bool)
      returns (log: BackPressureLog, ghost resolved: map<ResponseFuture, Response>)
      requires Valid()
      modifies emitter`pause, this`messagesFromMe, this`messagesToMe, this`requestIdGenerator, this`requestsToMe,
               this`requestsFromMeByRequestId, this`expiringRequestsFromMe,
               this`requestsToMeByInternalRequestId, this`expiringRequestsToMe, this`sent,
               stats`backPressureApplied, stats`requestsSent, stats`responsesSent, stats`failedRequests,
               stats`failedResponses, stats`responsesReceived, stats`requestsReceived,
               stats`responsesDroppedByOthers, stats`responsesDroppedByMe, futures`response
      ensures Valid() && messagesFromMe == [] && messagesToMe == [] && Settled(resolved)
      ensures StateOf(resolved) == Expired(InboundAfter(OutboundAfter(old(StateOf(map[])), old(messagesFromMe), now, socketAccepts),
                                                        old(messagesToMe), now), now)
      ensures emitter.pause <==> |old(requestsToMe)| > threshold
      ensures stats.backPressureApplied == (old(stats.backPressureApplied) || |old(requestsToMe)| > threshold)
      ensures log == ApplyingBackPressure <==> |old(requestsToMe)| > threshold && !old(emitter.pause)
      ensures log == RemovingBackPressure <==> |old(requestsToMe)| <= threshold && old(emitter.pause)
      ensures forall e | e in expiringRequestsFromMe :: e.expireTimeMillis > now
      ensures forall e | e in expiringRequestsToMe :: e.expireTimeMillis > now
    {
      log := BackPressure(threshold);
      ghost var drained;
      drained, resolved := DrainAndExpire(now, socketAccepts);
    }

    /** The work of an iteration after back pressure: both queues drained,
        then both deadline lists expired.
        Responses are judged by the corrected `ResponseToMe`. */
    method DrainAndExpire(now: int, socketAccepts: (Option<Address>, int) -> bool)
      returns (ghost drained: DispatchState, ghost resolved: map<ResponseFuture, Response>)
      requires Valid()
      modifies this`messagesFromMe, this`messagesToMe, this`requestIdGenerator, this`requestsToMe,
               this`requestsFromMeByRequestId, this`expiringRequestsFromMe,
               this`requestsToMeByInternalRequestId, this`expiringRequestsToMe, this`sent,
               stats`requestsSent, stats`responsesSent, stats`failedRequests, stats`failedResponses,
               stats`responsesReceived, stats`requestsReceived,
               stats`responsesDroppedByOthers, stats`responsesDroppedByMe, futures`response
      ensures Valid() && messagesFromMe == [] && messagesToMe == [] && Settled(resolved)
      ensures drained == InboundAfter(OutboundAfter(old(StateOf(map[])), old(messagesFromMe), now, socketAccepts), old(messagesToMe), now)
      ensures StateOf(resolved) == Expired(drained, now)
      ensures forall e | e in expiringRequestsFromMe :: e.expireTimeMillis > now
      ensures forall e | e in expiringRequestsToMe :: e.expireTimeMillis > now
    {
      resolved := DrainQueues(now, socketAccepts);
      drained := StateOf(resolved);
      resolved := ExpireDeadlines(now, resolved);
    }

    /** The inbound deadline list after a drain. */
    method KeepDeadlinesToMe(kept: seq<ExpiringId>)
      requires Valid() && requestsToMeByInternalRequestId.Keys <= IdsOf(kept)
      modifies this`expiringRequestsToMe
      ensures Valid() && expiringRequestsToMe == kept
    {
      expiringRequestsToMe := kept;
    }

    /** A request's send: counted, and a failed one is counted again. */
    method TransmitRequest(header: MessageHeader, data: Data, address: Option<Address>, port: int,
                           socketAccepts: (Option<Address>, int) -> bool)
      modifies this`sent, stats`requestsSent, stats`failedRequests
      ensures sent == old(sent) + Wire(header, data, address, port, socketAccepts)
      ensures stats.requestsSent == old(stats.requestsSent) + 1
      ensures stats.failedRequests ==
        old(stats.failedRequests) + (if Wire(header, data, address, port, socketAccepts) == [] then 1 else 0)
    {
      stats.requestsSent := stats.requestsSent + 1;
      var success := Transmit(header, data, address, port, socketAccepts);
      if !success {
        stats.failedRequests := stats.failedRequests + 1;
      }
    }

    /** A response's send: a failed one is counted. */
    method TransmitResponse(header: MessageHeader, data: Data, address: Option<Address>, port: int,
                            socketAccepts: (Option<Address>, int) -> bool)
      modifies this`sent, stats`failedResponses
      ensures sent == old(sent) + Wire(header, data, address, port, socketAccepts)
      ensures stats.failedResponses ==
        old(stats.failedResponses) + (if Wire(header, data, address, port, socketAccepts) == [] then 1 else 0)
    {
      var success := Transmit(header, data, address, port, socketAccepts);
      if !success {
        stats.failedResponses := stats.failedResponses + 1;
      }
    }

    /** `serviceUdp.send`, recording what the socket took. */
    method Transmit(header: MessageHeader, data: Data, address: Option<Address>, port: int,
                    socketAccepts: (Option<Address>, int) -> bool) returns (ok: bool)
      modifies this`sent
      ensures sent == old(sent) + Wire(header, data, address, port, socketAccepts)
      ensures ok <==> Wire(header, data, address, port, socketAccepts) != []
    {
      var datagram;
      ok, datagram := ServiceUdp.Send(header, data, config.maxMessageOutBytes, toJson,
                                  SocketTakes(address, port, socketAccepts));
      if ok {
        sent := sent + [Datagram(datagram.value, address, port)];
      }
    }
  }
}
