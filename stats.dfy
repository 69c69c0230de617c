/** Processor.PerMinuteStats: counters the dispatcher bumps, plus the
    fastest and slowest request processing time reported since the last
    reset. */
module Stats {

  /** `processRequestMillis` records a 0 ms run as 1 ms. */
  function Clamped(millis: int): int {
    if millis == 0 then 1 else millis
  }

  /** The smallest clamped value among the observations. */
  function MinClamped(ms: seq<int>): (low: int)
    requires |ms| > 0
    ensures forall i | 0 <= i < |ms| :: low <= Clamped(ms[i])
    ensures exists i | 0 <= i < |ms| :: low == Clamped(ms[i])
  {
    if |ms| == 1 then Clamped(ms[0])
    else
      var rest := MinClamped(ms[..|ms| - 1]);
      assert forall i | 0 <= i < |ms| - 1 :: ms[..|ms| - 1][i] == ms[i];
      if Clamped(ms[|ms| - 1]) < rest then Clamped(ms[|ms| - 1]) else rest
  }

  /** The largest clamped value among the observations. */
  function MaxClamped(ms: seq<int>): (high: int)
    requires |ms| > 0
    ensures forall i | 0 <= i < |ms| :: Clamped(ms[i]) <= high
    ensures exists i | 0 <= i < |ms| :: high == Clamped(ms[i])
  {
    if |ms| == 1 then Clamped(ms[0])
    else
      var rest := MaxClamped(ms[..|ms| - 1]);
      assert forall i | 0 <= i < |ms| - 1 :: ms[..|ms| - 1][i] == ms[i];
      if Clamped(ms[|ms| - 1]) > rest then Clamped(ms[|ms| - 1]) else rest
  }

  /** `processRequestLowMillis` after the observations `ms`: 0 for none. */
  function LowOf(ms: seq<int>): int {
    if ms == [] then 0 else MinClamped(ms)
  }

  /** `processRequestHighMillis` after the observations `ms`: it starts at 0. */
  function HighOf(ms: seq<int>): int {
    if ms == [] then 0 else if MaxClamped(ms) > 0 then MaxClamped(ms) else 0
  }

  /** The low mark can only be 0 when nothing was observed, since a 0 ms
      run counts as 1 ms. */
  lemma LowZeroOnlyWhenEmpty(ms: seq<int>)
    ensures LowOf(ms) == 0 <==> ms == []
  {
    if ms != [] {
      var i :| 0 <= i < |ms| && MinClamped(ms) == Clamped(ms[i]);
    }
  }

  /** For non-negative times the marks bracket every observation: at least
      1 ms, low at most high. */
  lemma MarksBracket(ms: seq<int>)
    requires |ms| > 0 && forall i | 0 <= i < |ms| :: ms[i] >= 0
    ensures 1 <= LowOf(ms) <= HighOf(ms)
    ensures forall i | 0 <= i < |ms| :: LowOf(ms) <= Clamped(ms[i]) <= HighOf(ms)
  {
    var i :| 0 <= i < |ms| && MinClamped(ms) == Clamped(ms[i]);
    assert Clamped(ms[i]) >= 1;
  }

  /** One more observation, in the terms `processRequestMillis` updates the marks. */
  lemma {:induction false} MarksSnoc(ms: seq<int>, millis: int)
    ensures LowOf(ms + [millis]) ==
      if LowOf(ms) == 0 || Clamped(millis) < LowOf(ms) then Clamped(millis) else LowOf(ms)
    ensures HighOf(ms + [millis]) ==
      if Clamped(millis) > HighOf(ms) then Clamped(millis) else HighOf(ms)
  {
    var all := ms + [millis];
    assert all[..|all| - 1] == ms;
    LowZeroOnlyWhenEmpty(ms);
    if ms == [] {
      assert all == [millis];
    }
  }

  /** A snapshot of the counters (what `getAndReset` serializes). */
  datatype Snapshot = Snapshot(
    requestsSent: int,
    requestsReceived: int,
    responsesSent: int,
    responsesReceived: int,
    responsesDroppedByMe: int,
    responsesDroppedByOthers: int,
    backPressureApplied: bool,
    processRequestLowMillis: int,
    processRequestHighMillis: int,
    failedRequests: int,
    failedResponses: int)

  const Cleared: Snapshot := Snapshot(0, 0, 0, 0, 0, 0, false, 0, 0, 0, 0)

  class PerMinuteStats {
    var requestsSent: int
    var requestsReceived: int
    var responsesSent: int
    var responsesReceived: int
    var responsesDroppedByMe: int
    var responsesDroppedByOthers: int
    var backPressureApplied: bool
    var processRequestLowMillis: int
    var processRequestHighMillis: int
    var failedRequests: int
    var failedResponses: int
    /** The processing times reported since the last reset. */
    ghost var observed: seq<int>

    /** The two marks are the extremes of what was observed. */
    ghost predicate Valid()
      reads this`processRequestLowMillis, this`processRequestHighMillis, this`observed
    {
      processRequestLowMillis == LowOf(observed) && processRequestHighMillis == HighOf(observed)
    }

    function Current(): Snapshot
      reads this
    {
      Snapshot(requestsSent, requestsReceived, responsesSent, responsesReceived, responsesDroppedByMe,
               responsesDroppedByOthers, backPressureApplied, processRequestLowMillis, processRequestHighMillis,
               failedRequests, failedResponses)
    }

    constructor()
      ensures Valid() && Current() == Cleared && observed == []
    {
      requestsSent, requestsReceived, responsesSent, responsesReceived := 0, 0, 0, 0;
      responsesDroppedByMe, responsesDroppedByOthers := 0, 0;
      backPressureApplied := false;
      processRequestLowMillis, processRequestHighMillis := 0, 0;
      failedRequests, failedResponses := 0, 0;
      observed := [];
    }

    /** `processRequestMillis`: one more observation; only the marks may move. */
    method ProcessRequestMillis(millis: int)
      requires Valid()
      modifies this`processRequestLowMillis, this`processRequestHighMillis, this`observed
      ensures Valid() && observed == old(observed) + [millis]
    {
      MarksSnoc(observed, millis);
      var m := millis;
      if m == 0 {
        m := 1;
      }
      if processRequestLowMillis == 0 || m < processRequestLowMillis {
        processRequestLowMillis := m;
      }
      if m > processRequestHighMillis {
        processRequestHighMillis := m;
      }
      observed := observed + [millis];
    }

    /** `getAndReset`: the counters as they were, and all of them cleared. */
    method GetAndReset() returns (snapshot: Snapshot)
      modifies this
      ensures snapshot == old(Current())
      ensures Valid() && Current() == Cleared && observed == []
    {
      snapshot := Current();
      Clear();
    }

    /** `clear`: every counter and both marks back to their starting values. */
    method Clear()
      modifies this
      ensures Valid() && Current() == Cleared && observed == []
    {
      requestsSent, requestsReceived, responsesSent, responsesReceived := 0, 0, 0, 0;
      responsesDroppedByMe, responsesDroppedByOthers := 0, 0;
      backPressureApplied := false;
      processRequestLowMillis, processRequestHighMillis := 0, 0;
      failedRequests, failedResponses := 0, 0;
      observed := [];
    }
  }
}
