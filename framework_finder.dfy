/** The service finder built into the framework
    (com.noqms.framework.ServiceFinderMulticast): heartbeats of every group
    arrive on one multicast port derived from the group name; valid ones of
    the own group go into the shared service table. */
module FrameworkFinder {
  import opened Wrappers
  import opened JavaLang
  import opened Messages
  import opened Registry

  const MulticastPortStart: int := 1890
  const MulticastPortSpan: int := 30000
  /** MulticastMessage.MAX_BYTES */
  const MaxBytes: int := 300

  /** The port as the constructor computes it: `Math.abs(hashCode) % 30000`
      in 32-bit arithmetic. */
  function MulticastPortAsWritten(groupName: string): int {
    MulticastPortStart + Rem(Abs32(HashCode(groupName)), MulticastPortSpan)
  }

  /** The port with the absolute value taken without overflow: always one
      of 1890 to 31889. */
  function MulticastPort(groupName: string): (port: int)
    ensures MulticastPortStart <= port < MulticastPortStart + MulticastPortSpan
  {
    var h := HashCode(groupName);
    MulticastPortStart + (if h < 0 then -h else h) % MulticastPortSpan
  }

  /** The two agree on every group name whose hash is not `Integer.MIN_VALUE`,
      so the formula as written stays in range for those. */
  lemma PortAsWrittenAgrees(groupName: string)
    requires HashCode(groupName) != IntMin
    ensures MulticastPortAsWritten(groupName) == MulticastPort(groupName)
    ensures MulticastPortStart <= MulticastPortAsWritten(groupName) < MulticastPortStart + MulticastPortSpan
  {
  }

  /** "GydZG_" hashes to `Integer.MIN_VALUE`; `Math.abs` leaves it negative and
      the port as written is -21758, which `new MulticastSocket` refuses. */
  lemma PortAsWrittenNegative()
    ensures HashCode("GydZG_") == IntMin
    ensures MulticastPortAsWritten("GydZG_") == -21758
    ensures MulticastPort("GydZG_") == 25538
  {
    MinHashName();
  }

  /** The validation of a received heartbeat (lines 116-117). */
  predicate WellFormed(m: Heartbeat) {
    && !IsNullOrBlank(m.serviceName)
    && m.address.Some?
    && m.port > 0
    && m.timeoutMillis > 0
    && m.groupName.Some?
  }

  /** The read loop's verdict on one datagram, for a reader that survives a
      null message by discarding it. */
  function Classify(json: JsonOutcome<Heartbeat>, ownGroup: string): (o: HeartbeatOutcome)
    ensures o != ReaderDies
    ensures o == Registered <==> json.Parsed? && WellFormed(json.value) && json.value.groupName == Some(ownGroup)
    ensures o == OtherGroup <==> json.Parsed? && WellFormed(json.value) && json.value.groupName != Some(ownGroup)
    ensures o == Undeserializable <==> json.Malformed?
  {
    match json
    case Malformed => Undeserializable
    case JsonNull => BadHeartbeat
    case Parsed(m) =>
      if !WellFormed(m) then BadHeartbeat
      else if m.groupName.value != ownGroup then OtherGroup
      else Registered
  }

  /** The verdict as written: `gson.fromJson` returns null for the text `null`
      and for blank text, and `message.serviceName` then throws outside any
      try, ending the read thread. */
  function ClassifyAsWritten(json: JsonOutcome<Heartbeat>, ownGroup: string): (o: HeartbeatOutcome)
    ensures o == ReaderDies <==> json.JsonNull?
    ensures !json.JsonNull? ==> o == Classify(json, ownGroup)
  {
    if json.JsonNull? then ReaderDies else Classify(json, ownGroup)
  }

  /** The datagram `null` ends the read loop as written; discarded, it would
      leave the loop reading the next heartbeat. */
  lemma NullHeartbeatStopsReader(ownGroup: string)
    ensures ClassifyAsWritten(JsonNull, ownGroup) == ReaderDies
    ensures Classify(JsonNull, ownGroup) == BadHeartbeat
  {
  }

  /** The datagram `sendMyServiceInfo` hands to the socket, or none when the
      serialized heartbeat exceeds MAX_BYTES. */
  function Announcement(myGroupName: string, myServiceName: string, myAddress: Address, myUdpPort: int,
                        myTimeoutMillis: int, toJson: Heartbeat -> seq<byte>): (datagram: Option<seq<byte>>)
    ensures datagram.Some? <==>
      |toJson(Heartbeat(Some(myGroupName), Some(myServiceName), Some(myAddress), myUdpPort, myTimeoutMillis))| <= MaxBytes
    ensures datagram.Some? ==>
      datagram.value == toJson(Heartbeat(Some(myGroupName), Some(myServiceName), Some(myAddress), myUdpPort, myTimeoutMillis))
  {
    var data := toJson(Heartbeat(Some(myGroupName), Some(myServiceName), Some(myAddress), myUdpPort, myTimeoutMillis));
    if |data| > MaxBytes then None else Some(data)
  }

  /** An instance's own heartbeat, read back by a finder of the same group
      whose JSON codec round-trips, registers that instance. */
  lemma AnnouncementRegisters(myGroupName: string, myServiceName: string, myAddress: Address, myUdpPort: int,
                              myTimeoutMillis: int, toJson: Heartbeat -> seq<byte>,
                              fromJson: seq<byte> -> JsonOutcome<Heartbeat>)
    requires !IsBlank(myServiceName) && myUdpPort > 0 && myTimeoutMillis > 0
    requires forall m: Heartbeat :: fromJson(toJson(m)) == Parsed(m)
    requires Announcement(myGroupName, myServiceName, myAddress, myUdpPort, myTimeoutMillis, toJson).Some?
    ensures ClassifyAsWritten(fromJson(Announcement(myGroupName, myServiceName, myAddress, myUdpPort, myTimeoutMillis, toJson).value),
                              myGroupName) == Registered
  {
    var m := Heartbeat(Some(myGroupName), Some(myServiceName), Some(myAddress), myUdpPort, myTimeoutMillis);
    assert fromJson(toJson(m)) == Parsed(m);
  }

  class ServiceFinderMulticast {
    const groupName: string
    const multicastPort: int
    const registry: ServiceRegistry

    ghost predicate Valid()
      reads this, registry
    {
      registry.Valid()
    }

    /** A finder for `groupName` with an empty table, on the port of the
        corrected formula `MulticastPort`; the formula as written is
        `MulticastPortAsWritten`. */
    constructor(groupName: string)
      ensures Valid() && fresh(registry) && registry.serviceNameToServices == map[]
      ensures this.groupName == groupName && multicastPort == MulticastPort(groupName)
    {
      this.groupName := groupName;
      multicastPort := MulticastPort(groupName);
      registry := new ServiceRegistry();
    }

    /** One turn of the corrected read loop on a datagram that deserialized as
        `json`, received at `now`: the corrected `Classify` discards a `null`
        heartbeat, where the loop as written ends (`ClassifyAsWritten`). */
    method Receive(json: JsonOutcome<Heartbeat>, now: int) returns (outcome: HeartbeatOutcome)
      requires Valid()
      modifies registry
      ensures Valid()
      ensures outcome == Classify(json, groupName)
      ensures outcome == Registered ==>
        registry.serviceNameToServices == old(registry.serviceNameToServices)[json.value.serviceName.value :=
          Refreshed(old(registry.Services(json.value.serviceName.value)),
                    ServiceKey(json.value.address, json.value.port), json.value.timeoutMillis, now)]
      ensures outcome != Registered ==> registry.serviceNameToServices == old(registry.serviceNameToServices)
    {
      outcome := Classify(json, groupName);
      if outcome == Registered {
        var m := json.value;
        registry.Upsert(m.serviceName.value, m.address, m.port, m.timeoutMillis, now);
      }
    }

    /** `findService`, over the shared table. */
    method FindService(serviceNameTo: string) returns (info: Option<ServiceInfo>)
      ensures info.None? <==> |registry.Services(serviceNameTo)| == 0
      ensures info.Some? ==> exists chosen | IsFirstFreshest(registry.Services(serviceNameTo), chosen) ::
        info.value == InfoOf(registry.Services(serviceNameTo)[chosen])
    {
      info := registry.FindService(serviceNameTo);
    }
  }
}
