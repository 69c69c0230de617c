/** The service table both multicast service finders keep: for each service
    name, its live instances in the order they were first heard
    (a LinkedHashMap keyed by address and port), each with the timeout it
    announced and the time its last heartbeat arrived. The two finder
    variants share this table and its two operations word for word; they
    differ only in how they validate a heartbeat and pick their port. */
module Registry {
  import opened Wrappers
  import opened JavaLang
  import opened Messages

  /** A deserialized heartbeat (MulticastMessage / ModelMulticast). Missing
      `int` members deserialize as 0. */
  datatype Heartbeat = Heartbeat(
    groupName: Option<string>,
    serviceName: Option<string>,
    address: Option<Address>,
    port: int,
    timeoutMillis: int)

  /** What the read loop does with one received multicast datagram. */
  datatype HeartbeatOutcome =
    | Undeserializable   // gson threw: logged, skipped
    | BadHeartbeat       // failed validation: logged, skipped
    | OtherGroup         // another group's heartbeat: silently skipped
    | Registered         // the instance was added or refreshed
    | ReaderDies         // a null message is dereferenced outside any try

  /** `formServiceKey(address, port)`: an instance is identified by address and port. */
  datatype ServiceKey = ServiceKey(address: Option<Address>, port: int)

  /** ServiceInfoDynamic: fixed address and port, refreshed timeout and last-heard time. */
  datatype Record = Record(address: Option<Address>, port: int, timeoutMillis: int, lastHeardFromTimeMillis: int)

  function KeyOf(r: Record): ServiceKey {
    ServiceKey(r.address, r.port)
  }

  /** The copy `findService` hands out. */
  function InfoOf(r: Record): ServiceInfo {
    ServiceInfo(r.address, r.port, r.timeoutMillis, r.lastHeardFromTimeMillis)
  }

  /** A map keyed by ServiceKey holds each key once. */
  predicate KeysDistinct(rs: seq<Record>) {
    forall i, j | 0 <= i < j < |rs| :: KeyOf(rs[i]) != KeyOf(rs[j])
  }

  /** Where the instance with key `k` sits, or -1. */
  function IndexOfKey(rs: seq<Record>, k: ServiceKey): (i: int)
    ensures -1 <= i < |rs|
    ensures i >= 0 ==> KeyOf(rs[i]) == k
    ensures i < 0 ==> forall j | 0 <= j < |rs| :: KeyOf(rs[j]) != k
  {
    if rs == [] then -1
    else if KeyOf(rs[0]) == k then 0
    else var i := IndexOfKey(rs[1..], k); if i < 0 then -1 else i + 1
  }

  /** The instances of one service after a heartbeat from key `k`: a known
      instance is refreshed where it stands, an unknown one is appended. */
  function Refreshed(rs: seq<Record>, k: ServiceKey, timeoutMillis: int, now: int): (ts: seq<Record>)
    requires KeysDistinct(rs)
    ensures |ts| == |rs| || |ts| == |rs| + 1
    ensures |ts| == |rs| + 1 <==> forall j | 0 <= j < |rs| :: KeyOf(rs[j]) != k
    ensures forall j | 0 <= j < |rs| :: KeyOf(ts[j]) == KeyOf(rs[j])
    ensures forall j | 0 <= j < |rs| && KeyOf(rs[j]) != k :: ts[j] == rs[j]
    ensures forall j | 0 <= j < |ts| && KeyOf(ts[j]) == k ::
      ts[j].timeoutMillis == timeoutMillis && ts[j].lastHeardFromTimeMillis == now
    ensures exists j | 0 <= j < |ts| :: KeyOf(ts[j]) == k
  {
    var i := IndexOfKey(rs, k);
    var r := Record(k.address, k.port, timeoutMillis, now);
    if i >= 0 then
      assert KeyOf(rs[i := r][i]) == k;
      rs[i := r]
    else
      assert KeyOf((rs + [r])[|rs|]) == k;
      rs + [r]
  }

  /** A heartbeat never makes one instance appear twice. */
  lemma {:induction false} RefreshedKeepsKeysDistinct(rs: seq<Record>, k: ServiceKey, timeoutMillis: int, now: int)
    requires KeysDistinct(rs)
    ensures KeysDistinct(Refreshed(rs, k, timeoutMillis, now))
  {
    var ts := Refreshed(rs, k, timeoutMillis, now);
    if |ts| == |rs| + 1 {
      forall i, j | 0 <= i < j < |ts|
        ensures KeyOf(ts[i]) != KeyOf(ts[j])
      {
        if j == |rs| {
          assert KeyOf(ts[j]) == k by {
            var w :| 0 <= w < |ts| && KeyOf(ts[w]) == k;
            assert w == |rs|;
          }
        }
      }
    }
  }

  /** `chosen` is the instance heard from most recently, the first of them on a tie. */
  predicate IsFirstFreshest(rs: seq<Record>, chosen: int) {
    && 0 <= chosen < |rs|
    && (forall j | 0 <= j < |rs| :: rs[j].lastHeardFromTimeMillis <= rs[chosen].lastHeardFromTimeMillis)
    && (forall j | 0 <= j < chosen :: rs[j].lastHeardFromTimeMillis < rs[chosen].lastHeardFromTimeMillis)
  }

  /** With a clock that does not run backwards, the instance just heard from is
      the freshest; when every other instance was heard strictly earlier, it
      is the one `findService` picks. */
  lemma FreshestAfterHeartbeat(rs: seq<Record>, k: ServiceKey, timeoutMillis: int, now: int, chosen: int)
    requires KeysDistinct(rs)
    requires forall j | 0 <= j < |rs| :: rs[j].lastHeardFromTimeMillis <= now
    requires IsFirstFreshest(Refreshed(rs, k, timeoutMillis, now), chosen)
    ensures Refreshed(rs, k, timeoutMillis, now)[chosen].lastHeardFromTimeMillis == now
    ensures (forall j | 0 <= j < |rs| && KeyOf(rs[j]) != k :: rs[j].lastHeardFromTimeMillis < now) ==>
      KeyOf(Refreshed(rs, k, timeoutMillis, now)[chosen]) == k
  {
    var ts := Refreshed(rs, k, timeoutMillis, now);
    var w :| 0 <= w < |ts| && KeyOf(ts[w]) == k;
    assert ts[w].lastHeardFromTimeMillis == now;
    assert forall j | 0 <= j < |ts| :: ts[j].lastHeardFromTimeMillis <= now by {
      forall j | 0 <= j < |ts|
        ensures ts[j].lastHeardFromTimeMillis <= now
      {
        if j < |rs| && KeyOf(rs[j]) != k {
          assert ts[j] == rs[j];
        }
      }
    }
  }

  class ServiceRegistry {
    /** `serviceNameToServices` */
    var serviceNameToServices: map<string, seq<Record>>

    /** No service has an empty instance table, and each table holds each key once. */
    ghost predicate Valid()
      reads this
    {
      forall name | name in serviceNameToServices ::
        |serviceNameToServices[name]| > 0 && KeysDistinct(serviceNameToServices[name])
    }

    constructor()
      ensures Valid() && serviceNameToServices == map[]
    {
      serviceNameToServices := map[];
    }

    /** The instances known for a name; none when the name is unknown. */
    function Services(serviceName: string): seq<Record>
      reads this
    {
      if serviceName in serviceNameToServices then serviceNameToServices[serviceName] else []
    }

    /** Record a valid heartbeat of the own group received at `now`. */
    method Upsert(serviceName: string, address: Option<Address>, port: int, timeoutMillis: int, now: int)
      requires Valid()
      modifies this
      ensures Valid()
      ensures serviceNameToServices ==
        old(serviceNameToServices)[serviceName := Refreshed(old(Services(serviceName)), ServiceKey(address, port), timeoutMillis, now)]
    {
      var services := Services(serviceName);
      RefreshedKeepsKeysDistinct(services, ServiceKey(address, port), timeoutMillis, now);
      serviceNameToServices := serviceNameToServices[serviceName := Refreshed(services, ServiceKey(address, port), timeoutMillis, now)];
    }

    /** `findService`: none for an unknown name, else a copy of the instance
        heard from most recently, the earliest inserted on a tie. */
    method FindService(serviceNameTo: string) returns (info: Option<ServiceInfo>)
      ensures info.None? <==> |Services(serviceNameTo)| == 0
      ensures info.Some? ==> exists chosen | IsFirstFreshest(Services(serviceNameTo), chosen) ::
        info.value == InfoOf(Services(serviceNameTo)[chosen])
    {
      var services := Services(serviceNameTo);
      if |services| == 0 {
        return None;
      }
      var chosen := 0;
      var i := 1;
      while i < |services|
        invariant 1 <= i <= |services| && 0 <= chosen < i
        invariant forall j | 0 <= j < i :: services[j].lastHeardFromTimeMillis <= services[chosen].lastHeardFromTimeMillis
        invariant forall j | 0 <= j < chosen :: services[j].lastHeardFromTimeMillis < services[chosen].lastHeardFromTimeMillis
      {
        if services[i].lastHeardFromTimeMillis > services[chosen].lastHeardFromTimeMillis {
          chosen := i;
        }
        i := i + 1;
      }
      assert IsFirstFreshest(services, chosen);
      info := Some(InfoOf(services[chosen]));
    }
  }
}
