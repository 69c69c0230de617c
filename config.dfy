/** Config.createFromProperties: the startup configuration, read from a
    key=value table, defaulted, trimmed and validated. */
module Configuration {
  import opened Wrappers
  import opened JavaLang

  /** `java.util.Properties` as the core uses it: string keys to string values. */
  type Properties = map<string, string>

  const DefaultServiceFinderPath: string := "com.noqms.finder.multicast.ServiceFinderMulticast"
  const MaxStringLength: int := 100
  const DefaultEmitterIntervalSeconds: int := 2
  const DefaultServiceUnavailableSeconds: int := 1 + 2 * DefaultEmitterIntervalSeconds

  // Property names (Runner.ARG_*).
  const ArgGroupName: string := "groupName"
  const ArgServiceName: string := "serviceName"
  const ArgServicePath: string := "servicePath"
  const ArgThreads: string := "threads"
  const ArgTypicalMillis: string := "typicalMillis"
  const ArgTimeoutMillis: string := "timeoutMillis"
  const ArgMaxMessageOutBytes: string := "maxMessageOutBytes"
  const ArgMaxMessageInBytes: string := "maxMessageInBytes"
  const ArgEmitterIntervalSeconds: string := "emitterIntervalSeconds"
  const ArgServiceUnavailableSeconds: string := "serviceUnavailableSeconds"
  const ArgServiceFinderPath: string := "serviceFinderPath"
  const ArgLogListenerPath: string := "logListenerPath"
  const ArgAppDataPort: string := "appDataPort"

  /** The validated configuration. */
  datatype Config = Config(
    groupName: string,
    threads: int,
    timeoutMillis: int,
    serviceName: string,
    servicePath: string,
    maxMessageOutBytes: int,
    maxMessageInBytes: int,
    typicalMillis: int,
    emitterIntervalMillis: int,
    serviceUnavailableMillis: int,
    serviceFinderPath: string,
    logListenerPath: string,
    appDataPort: int)

  /** The exception `createFromProperties` throws, one per message it can carry. */
  datatype ConfigError =
    | ValueRequired(name: string)
    | NotAnInteger(name: string)
    | ThreadsNotPositive
    | TimeoutNotPositive
    | ServiceNameTooLong
    | MaxOutNegative
    | MaxInNegative
    | TypicalNotPositive
    | TimeoutBelowTypical
    | GroupNameTooLong
    | IntervalNotPositive
    | UnavailableNotPositive
    | UnavailableBelowInterval
    | AppDataPortOutOfRange

  /** `loadInt`: a missing value is its default or an error; a present one is
      trimmed and parsed by `Integer.valueOf`. */
  function LoadInt(props: Properties, name: string, defaultValue: Option<int>): (r: Result<int, ConfigError>)
    ensures name !in props ==> (r.Success? <==> defaultValue.Some?)
    ensures name !in props && defaultValue.Some? ==> r.value == defaultValue.value
    ensures name !in props && defaultValue.None? ==> r == Failure(ValueRequired(name))
    ensures name in props ==> match ParseInt(Trim(props[name]))
                               case Some(v) => r == Success(v)
                               case None => r == Failure(NotAnInteger(name))
  {
    if name !in props then
      if defaultValue.None? then Failure(ValueRequired(name)) else Success(defaultValue.value)
    else
      match ParseInt(Trim(props[name]))
      case None => Failure(NotAnInteger(name))
      case Some(v) => Success(v)
  }

  /** `loadString`: a missing or blank value is its default or an error; a
      present one is trimmed. */
  function LoadString(props: Properties, name: string, defaultValue: Option<string>): (r: Result<string, ConfigError>)
    ensures (name !in props || IsBlank(props[name])) ==>
      r == if defaultValue.Some? then Success(defaultValue.value) else Failure(ValueRequired(name))
    ensures name in props && !IsBlank(props[name]) ==> r == Success(Trim(props[name]))
  {
    if name !in props || IsBlank(props[name]) then
      if defaultValue.None? then Failure(ValueRequired(name)) else Success(defaultValue.value)
    else
      Success(Trim(props[name]))
  }

  /** Java's `isBlank` and `trim` disagree: U+0001 is not white space, so a
      required value of just that character is accepted, and trimming then
      leaves it empty. */
  lemma RequiredStringMayTrimToEmpty()
    ensures LoadString(map[ArgServiceName := ['\U{1}']], ArgServiceName, None) == Success([])
  {
    var s := ['\U{1}'];
    assert !IsWhitespace(s[0]);
    assert TrimStart(s) == [];
  }

  /** The values as loaded, before validation. */
  datatype Loaded = Loaded(
    threads: int,
    timeoutMillis: int,
    serviceName: string,
    servicePath: string,
    maxMessageOutBytes: int,
    maxMessageInBytes: int,
    typicalMillis: int,
    groupName: string,
    emitterIntervalSeconds: int,
    serviceUnavailableSeconds: int,
    serviceFinderPath: string,
    logListenerPath: string,
    appDataPort: int)

  /** Every load, in the order of Config.java:48-62; the first failing one decides. */
  function Load(props: Properties): (r: Result<Loaded, ConfigError>)
    ensures r.Success? && ArgEmitterIntervalSeconds !in props ==> r.value.emitterIntervalSeconds == DefaultEmitterIntervalSeconds
    ensures r.Success? && ArgServiceUnavailableSeconds !in props ==> r.value.serviceUnavailableSeconds == DefaultServiceUnavailableSeconds
    ensures r.Success? && ArgAppDataPort !in props ==> r.value.appDataPort == 0
    ensures r.Success? && ArgServiceFinderPath !in props ==> r.value.serviceFinderPath == DefaultServiceFinderPath
    ensures r.Success? && ArgLogListenerPath !in props ==> r.value.logListenerPath == []
    ensures r.Success? ==> LoadInt(props, ArgThreads, None) == Success(r.value.threads)
    ensures r.Success? ==> LoadString(props, ArgServiceName, None) == Success(r.value.serviceName)
    ensures ArgThreads !in props ==> r == Failure(ValueRequired(ArgThreads))
  {
    var threads :- LoadInt(props, ArgThreads, None);
    var timeoutMillis :- LoadInt(props, ArgTimeoutMillis, None);
    var serviceName :- LoadString(props, ArgServiceName, None);
    var servicePath :- LoadString(props, ArgServicePath, None);
    var maxMessageOutBytes :- LoadInt(props, ArgMaxMessageOutBytes, None);
    var maxMessageInBytes :- LoadInt(props, ArgMaxMessageInBytes, None);
    var typicalMillis :- LoadInt(props, ArgTypicalMillis, None);
    var groupName :- LoadString(props, ArgGroupName, None);
    var emitterIntervalSeconds :- LoadInt(props, ArgEmitterIntervalSeconds, Some(DefaultEmitterIntervalSeconds));
    var serviceUnavailableSeconds :- LoadInt(props, ArgServiceUnavailableSeconds, Some(DefaultServiceUnavailableSeconds));
    var serviceFinderPath :- LoadString(props, ArgServiceFinderPath, Some(DefaultServiceFinderPath));
    var logListenerPath :- LoadString(props, ArgLogListenerPath, Some([]));
    var appDataPort :- LoadInt(props, ArgAppDataPort, Some(0));
    Success(Loaded(threads, timeoutMillis, serviceName, servicePath, maxMessageOutBytes, maxMessageInBytes,
                   typicalMillis, groupName, emitterIntervalSeconds, serviceUnavailableSeconds, serviceFinderPath,
                   logListenerPath, appDataPort))
  }

  /** The conditions a loaded configuration must meet (Config.java:64-91). */
  predicate Acceptable(l: Loaded) {
    && l.threads > 0
    && l.timeoutMillis > 0
    && |l.serviceName| <= MaxStringLength
    && l.maxMessageOutBytes >= 0
    && l.maxMessageInBytes >= 0
    && l.typicalMillis > 0
    && l.timeoutMillis >= l.typicalMillis
    && |l.groupName| <= MaxStringLength
    && l.emitterIntervalSeconds > 0
    && l.serviceUnavailableSeconds > 0
    && l.serviceUnavailableSeconds >= l.emitterIntervalSeconds
    && 0 <= l.appDataPort <= 65535
  }

  /** The checks, in source order, then the private constructor, which turns
      seconds into milliseconds. */
  function Validate(l: Loaded): (r: Result<Config, ConfigError>)
    ensures r.Success? <==> Acceptable(l)
    ensures l.threads <= 0 ==> r == Failure(ThreadsNotPositive)
    ensures l.threads > 0 && l.timeoutMillis > 0 && l.typicalMillis > 0 && l.timeoutMillis < l.typicalMillis
            && |l.serviceName| <= MaxStringLength && l.maxMessageOutBytes >= 0 && l.maxMessageInBytes >= 0
            ==> r == Failure(TimeoutBelowTypical)
    ensures r.Success? ==>
      && r.value.threads == l.threads && r.value.timeoutMillis == l.timeoutMillis
      && r.value.typicalMillis == l.typicalMillis
      && r.value.serviceName == l.serviceName && r.value.servicePath == l.servicePath
      && r.value.groupName == l.groupName
      && r.value.maxMessageOutBytes == l.maxMessageOutBytes && r.value.maxMessageInBytes == l.maxMessageInBytes
      && r.value.emitterIntervalMillis == 1000 * l.emitterIntervalSeconds
      && r.value.serviceUnavailableMillis == 1000 * l.serviceUnavailableSeconds
      && r.value.serviceFinderPath == l.serviceFinderPath && r.value.logListenerPath == l.logListenerPath
      && r.value.appDataPort == l.appDataPort
  {
    if l.threads <= 0 then Failure(ThreadsNotPositive)
    else if l.timeoutMillis <= 0 then Failure(TimeoutNotPositive)
    else if |l.serviceName| > MaxStringLength then Failure(ServiceNameTooLong)
    else if l.maxMessageOutBytes < 0 then Failure(MaxOutNegative)
    else if l.maxMessageInBytes < 0 then Failure(MaxInNegative)
    else if l.typicalMillis <= 0 then Failure(TypicalNotPositive)
    else if l.timeoutMillis < l.typicalMillis then Failure(TimeoutBelowTypical)
    else if |l.groupName| > MaxStringLength then Failure(GroupNameTooLong)
    else if l.emitterIntervalSeconds <= 0 then Failure(IntervalNotPositive)
    else if l.serviceUnavailableSeconds <= 0 then Failure(UnavailableNotPositive)
    else if l.serviceUnavailableSeconds < l.emitterIntervalSeconds then Failure(UnavailableBelowInterval)
    else if l.appDataPort < 0 || l.appDataPort > 65535 then Failure(AppDataPortOutOfRange)
    else
      Success(Config(l.groupName, l.threads, l.timeoutMillis, l.serviceName, l.servicePath, l.maxMessageOutBytes,
                     l.maxMessageInBytes, l.typicalMillis, 1000 * l.emitterIntervalSeconds,
                     1000 * l.serviceUnavailableSeconds, l.serviceFinderPath, l.logListenerPath, l.appDataPort))
  }

  /** What every configuration the framework runs with satisfies. */
  predicate Sane(c: Config) {
    && c.threads > 0
    && 0 < c.typicalMillis <= c.timeoutMillis
    && |c.serviceName| <= MaxStringLength && |c.groupName| <= MaxStringLength
    && c.maxMessageOutBytes >= 0 && c.maxMessageInBytes >= 0
    && c.emitterIntervalMillis >= 1000
    && c.serviceUnavailableMillis >= c.emitterIntervalMillis
    && 0 <= c.appDataPort <= 65535
  }

  /** `createFromProperties`. */
  function CreateFromProperties(props: Properties): (r: Result<Config, ConfigError>)
    ensures r.Success? <==> Load(props).Success? && Acceptable(Load(props).value)
    ensures r.Success? ==> Sane(r.value)
    ensures Load(props).Failure? ==> r == Failure(Load(props).error)
  {
    var loaded :- Load(props);
    Validate(loaded)
  }

  /** The required keys alone, with values that pass, give the defaults:
      a 2 s heartbeat interval, a 5 s unavailability threshold, port 0, the
      multicast finder and no log listener. */
  lemma Defaults(props: Properties)
    requires forall k | k in props :: k in {ArgThreads, ArgTimeoutMillis, ArgServiceName, ArgServicePath,
                                             ArgMaxMessageOutBytes, ArgMaxMessageInBytes, ArgTypicalMillis, ArgGroupName}
    requires CreateFromProperties(props).Success?
    ensures CreateFromProperties(props).value.emitterIntervalMillis == 2000
    ensures CreateFromProperties(props).value.serviceUnavailableMillis == 5000
    ensures CreateFromProperties(props).value.appDataPort == 0
    ensures CreateFromProperties(props).value.serviceFinderPath == DefaultServiceFinderPath
    ensures CreateFromProperties(props).value.logListenerPath == []
  {
    OnlyRequiredKeys(props);
  }

  /** None of the optional keys is among the required ones. */
  lemma OnlyRequiredKeys(props: Properties)
    requires forall k | k in props :: k in {ArgThreads, ArgTimeoutMillis, ArgServiceName, ArgServicePath,
                                             ArgMaxMessageOutBytes, ArgMaxMessageInBytes, ArgTypicalMillis, ArgGroupName}
    ensures ArgEmitterIntervalSeconds !in props && ArgServiceUnavailableSeconds !in props
    ensures ArgAppDataPort !in props && ArgServiceFinderPath !in props && ArgLogListenerPath !in props
  {
  }
}
