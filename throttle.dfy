/** The throttled restart: restartConfig and restartSystemdServiceThrottledAndLog,
    with restartSystemdService as the step that reports the service
    manager's outcome. */
module Throttle {
  import opened ErrorTrace

  /** Instants are nanoseconds since Go's zero time (January 1 of year 1,
      00:00:00 UTC), durations are nanoseconds as in time.Duration. */
  const ZeroTime: int := 0
  const Second: int := 1_000_000_000
  const MinDuration: int := -0x8000_0000_0000_0000
  const MaxDuration: int := 0x7FFF_FFFF_FFFF_FFFF

  /** time.Since(last) read at instant `now`: the difference, saturated to
      the int64 range of time.Duration as time.Time.Sub does. */
  function Since(now: int, last: int): (d: int)
    ensures MinDuration <= d <= MaxDuration
  {
    if now - last > MaxDuration then MaxDuration
    else if now - last < MinDuration then MinDuration
    else now - last
  }

  /** For a threshold inside the Duration range, the saturation never changes
      the throttle decision. */
  lemma SinceBelow(now: int, last: int, threshold: int)
    requires MinDuration < threshold <= MaxDuration
    ensures Since(now, last) < threshold <==> now - last < threshold
  {
  }

  /** How `systemctl restart` ends: success, or a failure with its error
      and the combined output it printed. */
  datatype CommandResult = CommandOk | CommandFailed(cause: Error, output: string)

  /** One call of the throttled restart: the clock read by the throttle
      check, the clock read by the deferred update on the way out, and what
      the service manager reports should the restart be run. */
  datatype Call = Call(checkedAt: int, endedAt: int, command: CommandResult)

  /** What one call does, as it appears in the log. */
  datatype Event =
    | Throttled(at: int)
    | Attempted(at: int, service: string, failure: Option<Error>)

  /** The error restartSystemdService returns for a command outcome, as a
      function so that Step can state a call's logged event; the method
      RestartService is proved to return it. */
  function RestartFailure(command: CommandResult): Option<Error>
  {
    match command
    case CommandOk => None
    case CommandFailed(cause, output) => Some(Wrapped(cause, " " + output))
  }

  /** restartSystemdService: on failure the command's error is wrapped with
      its output; on success there is no error. */
  method RestartService(service: string, command: CommandResult) returns (err: Option<Error>)
    ensures err.None? <==> command.CommandOk?
    ensures command.CommandFailed? ==> err == Some(Wrapped(command.cause, " " + command.output))
  {
    if command.CommandFailed? {
      var e := WrapAndTrace(command.cause, [command.output]);
      assert [command.output][1..] == [];
      assert Joined([command.output]) == " " + command.output;
      err := Some(e);
    } else {
      err := None;
    }
  }

  /** The decision of one call against the lastRestart it finds. */
  function Step(last: int, threshold: int, service: string, call: Call): (e: Event)
  {
    if Since(call.checkedAt, last) < threshold then Throttled(call.checkedAt)
    else Attempted(call.checkedAt, service, RestartFailure(call.command))
  }

  /** lastRestart after a sequence of calls starting from `last`. */
  function LastAfter(last: int, calls: seq<Call>): int
  {
    if calls == [] then last else calls[|calls| - 1].endedAt
  }

  /** The events of a sequence of calls on one restartConfig whose
      LastRestart starts at `last`, each call applied to the state the
      previous ones left. */
  function Replay(last: int, threshold: int, service: string, calls: seq<Call>): (events: seq<Event>)
    ensures |events| == |calls|
    decreases |calls|
  {
    if calls == [] then []
    else
      var prefix := calls[..|calls| - 1];
      Replay(last, threshold, service, prefix)
        + [Step(LastAfter(last, prefix), threshold, service, calls[|calls| - 1])]
  }

  /** The value of LastRestart that call i finds: the initial one, or the end
      time of call i - 1, whatever that call did. */
  function Before(last: int, calls: seq<Call>, i: nat): int
    requires i <= |calls|
  {
    if i == 0 then last else calls[i - 1].endedAt
  }

  /** Sliding window: call i is decided against the end time of call
      i - 1 only, whether call i - 1 was throttled, succeeded or failed. */
  lemma {:induction false} ReplayAt(last: int, threshold: int, service: string, calls: seq<Call>, i: nat)
    requires i < |calls|
    ensures Replay(last, threshold, service, calls)[i]
         == Step(Before(last, calls, i), threshold, service, calls[i])
    decreases |calls|
  {
    var prefix := calls[..|calls| - 1];
    if i < |calls| - 1 {
      ReplayAt(last, threshold, service, prefix, i);
      assert Before(last, prefix, i) == Before(last, calls, i);
    }
  }

  /** Call i attempts a restart exactly when the time since the previous
      call's end (or since the initial LastRestart) reaches the threshold;
      otherwise it is throttled and the service is left alone. */
  lemma AttemptIff(last: int, threshold: int, service: string, calls: seq<Call>, i: nat)
    requires i < |calls|
    requires MinDuration < threshold <= MaxDuration
    ensures Replay(last, threshold, service, calls)[i].at == calls[i].checkedAt
    ensures Replay(last, threshold, service, calls)[i].Attempted?
        <==> calls[i].checkedAt - Before(last, calls, i) >= threshold
    ensures Replay(last, threshold, service, calls)[i].Attempted? ==>
              Replay(last, threshold, service, calls)[i]
              == Attempted(calls[i].checkedAt, service, RestartFailure(calls[i].command))
  {
    ReplayAt(last, threshold, service, calls, i);
    SinceBelow(calls[i].checkedAt, Before(last, calls, i), threshold);
  }

  /** Number of restart attempts among some events. */
  function AttemptCount(events: seq<Event>): nat
  {
    if events == [] then 0
    else (if events[0].Attempted? then 1 else 0) + AttemptCount(events[1..])
  }

  /** The state run builds (zero-time LastRestart, one-second threshold):
      the first call attempts the restart at any clock reading past the
      first second of year 1, because time.Since saturates. */
  lemma FreshFirstCallAttempts(service: string, calls: seq<Call>)
    requires calls != [] && calls[0].checkedAt >= Second
    ensures Replay(ZeroTime, Second, service, calls)[0].Attempted?
  {
    ReplayAt(ZeroTime, Second, service, calls, 0);
  }

  /** With a one-second threshold, a call starting less than a second after
      the previous one ended (say 100 ms) is throttled: two such calls on a
      fresh state give exactly one restart attempt. */
  lemma TwoQuickCallsOneAttempt(service: string, first: Call, second: Call)
    requires first.checkedAt >= Second
    requires second.checkedAt - first.endedAt < Second
    ensures Replay(ZeroTime, Second, service, [first, second])[0].Attempted?
    ensures Replay(ZeroTime, Second, service, [first, second])[1] == Throttled(second.checkedAt)
    ensures AttemptCount(Replay(ZeroTime, Second, service, [first, second])) == 1
  {
    var calls := [first, second];
    var events := Replay(ZeroTime, Second, service, calls);
    AttemptIff(ZeroTime, Second, service, calls, 0);
    AttemptIff(ZeroTime, Second, service, calls, 1);
    assert events[1..] == [events[1]];
    assert events[1..][1..] == [];
    assert AttemptCount(events[1..]) == 0;
  }

  /** A burst of calls, each starting less than the threshold after the
      previous one ended, contains at most one attempt: the first. Throttled
      calls move the window forward too. */
  lemma BurstAttemptsOnlyFirst(last: int, threshold: int, service: string, calls: seq<Call>)
    requires MinDuration < threshold <= MaxDuration
    requires forall j :: 0 < j < |calls| ==> calls[j].checkedAt - calls[j - 1].endedAt < threshold
    ensures forall j :: 0 < j < |calls| ==>
              Replay(last, threshold, service, calls)[j] == Throttled(calls[j].checkedAt)
  {
    forall j | 0 < j < |calls|
      ensures Replay(last, threshold, service, calls)[j] == Throttled(calls[j].checkedAt)
    {
      AttemptIff(last, threshold, service, calls, j);
    }
  }

  /** No lockout: what the service manager reported for any call (success or
      failure) changes no throttle decision, nor any attempt made later. */
  lemma OutcomeDoesNotAffectDecisions(last: int, threshold: int, service: string,
                                      calls: seq<Call>, i: nat, other: CommandResult)
    requires i < |calls|
    ensures forall j :: 0 <= j < |calls| ==>
              (Replay(last, threshold, service, calls)[j].Attempted?
               <==> Replay(last, threshold, service, calls[i := calls[i].(command := other)])[j].Attempted?)
    ensures forall j :: i < j < |calls| ==>
              Replay(last, threshold, service, calls)[j]
              == Replay(last, threshold, service, calls[i := calls[i].(command := other)])[j]
  {
    var changed := calls[i := calls[i].(command := other)];
    forall j | 0 <= j < |calls|
      ensures Replay(last, threshold, service, calls)[j].Attempted?
              <==> Replay(last, threshold, service, changed)[j].Attempted?
      ensures i < j ==> Replay(last, threshold, service, calls)[j]
                        == Replay(last, threshold, service, changed)[j]
    {
      ReplayAt(last, threshold, service, calls, j);
      ReplayAt(last, threshold, service, changed, j);
      assert Before(last, calls, j) == Before(last, changed, j);
    }
  }

  /** restartConfig: LastRestart and ThrottleThresh, with the log of what
      each call did. */
  class RestartThrottle {
    var lastRestart: int
    const threshold: int
    var events: seq<Event>

    /** The state run builds, with LastRestart at the zero time. */
    constructor (threshold: int)
      ensures lastRestart == ZeroTime && this.threshold == threshold && events == []
    {
      lastRestart := ZeroTime;
      this.threshold := threshold;
      events := [];
    }

    /** restartSystemdServiceThrottledAndLog. The deferred closure that sets
        LastRestart runs on every return path, the throttled early return
        included; it is the last statement here. A failed restart is only
        logged. */
    method ThrottledRestart(service: string, call: Call)
      modifies this
      ensures lastRestart == call.endedAt
      ensures events == old(events) + [Step(old(lastRestart), threshold, service, call)]
      ensures old(Since(call.checkedAt, lastRestart)) < threshold ==>
                events == old(events) + [Throttled(call.checkedAt)]
      ensures old(Since(call.checkedAt, lastRestart)) >= threshold ==>
                events == old(events) + [Attempted(call.checkedAt, service, RestartFailure(call.command))]
    {
      if Since(call.checkedAt, lastRestart) < threshold {
        events := events + [Throttled(call.checkedAt)];
      } else {
        var err := RestartService(service, call.command);
        events := events + [Attempted(call.checkedAt, service, err)];
      }
      lastRestart := call.endedAt;
    }
  }
}
