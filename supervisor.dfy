/** run: one forced throttled restart on a fresh restartConfig, then the
    poll loop with the throttled restart as its action. */
module Supervisor {
  import opened ErrorTrace
  import opened Throttle
  import opened Poll

  /** One poll cycle: the outcome of reading the config file, and the clock
      readings and service-manager outcome of the action's call, which are
      used only if the cycle fires. */
  datatype Cycle = Cycle(read: ReadResult, call: Call)

  function Reads(cycles: seq<Cycle>): seq<ReadResult>
  {
    seq(|cycles|, i requires 0 <= i < |cycles| => cycles[i].read)
  }

  /** The calls the action makes, in order: one per firing cycle. */
  function ActionCalls(cycles: seq<Cycle>): seq<Call>
  {
    var fired := FiredCycles(Reads(cycles));
    seq(|fired|, k requires 0 <= k < |fired| => cycles[fired[k]].call)
  }

  /** Every call on the shared restartConfig: the startup one, then the
      action's. */
  function AllCalls(startup: Call, cycles: seq<Cycle>): seq<Call>
  {
    [startup] + ActionCalls(cycles)
  }

  /** The events of a whole run. */
  function RunEvents(service: string, startup: Call, cycles: seq<Cycle>): seq<Event>
  {
    Replay(ZeroTime, Second, service, AllCalls(startup, cycles))
  }

  /** run(c): the events logged by the throttled restarts, and the error run
      returns (the loop's error, wrapped once more). The action of each firing
      cycle is applied after the loop returns, in cycle order; since the
      reads are inputs, the calls are the same as when made from inside it. */
  method Run(service: string, startup: Call, cycles: seq<Cycle>)
    returns (events: seq<Event>, err: Option<Error>)
    ensures events == RunEvents(service, startup, cycles)
    ensures err.None? <==> CyclesRun(Reads(cycles)) == |cycles|
    ensures err.Some? ==>
              CyclesRun(Reads(cycles)) < |cycles| &&
              err.value == Wrapped(Wrapped(cycles[CyclesRun(Reads(cycles))].read.error, ""), "")
  {
    var throttle := new RestartThrottle(Second);
    throttle.ThrottledRestart(service, startup);
    var fired, loopErr := OnChange(Reads(cycles));
    ghost var calls := AllCalls(startup, cycles);
    assert calls[..1] == [startup];
    for k := 0 to |fired|
      invariant throttle.threshold == Second
      invariant throttle.events == Replay(ZeroTime, Second, service, calls[..k + 1])
      invariant throttle.lastRestart == LastAfter(ZeroTime, calls[..k + 1])
    {
      assert calls[..k + 2][..k + 1] == calls[..k + 1];
      assert calls[k + 1] == cycles[fired[k]].call;
      throttle.ThrottledRestart(service, cycles[fired[k]].call);
    }
    assert calls[..|fired| + 1] == calls;
    events := throttle.events;
    if loopErr.Some? {
      var e := WrapAndTrace(loopErr.value, []);
      err := Some(e);
    } else {
      err := None;
    }
  }

  /** The forced startup call always attempts the restart (for any clock
      reading past the first second of year 1). */
  lemma StartupRestartAttempts(service: string, startup: Call, cycles: seq<Cycle>)
    requires startup.checkedAt >= Second
    ensures RunEvents(service, startup, cycles)[0]
            == Attempted(startup.checkedAt, service, RestartFailure(startup.command))
  {
    FreshFirstCallAttempts(service, AllCalls(startup, cycles));
    AttemptIff(ZeroTime, Second, service, AllCalls(startup, cycles), 0);
  }

  /** Unchanged config: when every cycle reads the same digest and the first
      poll's action starts less than a second after the startup restart
      ended, the run restarts the service exactly once, at startup; the
      first poll fires (the stored fingerprint starts as "") and is
      throttled, and no later cycle fires. */
  lemma SteadyConfigOneRestart(service: string, startup: Call, cycles: seq<Cycle>, h: string)
    requires startup.checkedAt >= Second
    requires cycles != [] && h != ""
    requires forall i :: 0 <= i < |cycles| ==> cycles[i].read == Digest(h)
    requires cycles[0].call.checkedAt - startup.endedAt < Second
    ensures RunEvents(service, startup, cycles)
            == [Attempted(startup.checkedAt, service, RestartFailure(startup.command)),
                Throttled(cycles[0].call.checkedAt)]
    ensures AttemptCount(RunEvents(service, startup, cycles)) == 1
  {
    SteadyContentFiresOnce(Reads(cycles), h);
    assert ActionCalls(cycles) == [cycles[0].call];
    var calls := [startup, cycles[0].call];
    assert AllCalls(startup, cycles) == calls;
    var events := Replay(ZeroTime, Second, service, calls);
    AttemptIff(ZeroTime, Second, service, calls, 0);
    AttemptIff(ZeroTime, Second, service, calls, 1);
    assert events == [events[0], events[1]];
    TwoQuickCallsOneAttempt(service, startup, cycles[0].call);
  }

  /** A read failure ends the run with an error, and the cycles after it
      contribute no restart call. */
  lemma FailedReadEndsRun(service: string, startup: Call, pre: seq<Cycle>, bad: Cycle, rest: seq<Cycle>)
    requires bad.read.ReadFailed?
    ensures CyclesRun(Reads(pre + [bad] + rest)) < |pre + [bad] + rest|
    ensures ActionCalls(pre + [bad] + rest) == ActionCalls(pre)
  {
    var whole := pre + [bad] + rest;
    assert Reads(whole) == Reads(pre) + [ReadFailed(bad.read.error)] + Reads(rest);
    ErrorStopsPolling(Reads(pre), bad.read.error, Reads(rest));
    FiredCyclesIff(Reads(pre));
    var fired := FiredCycles(Reads(pre));
    forall k | 0 <= k < |fired|
      ensures whole[fired[k]] == pre[fired[k]]
    {
      assert fired[k] < |pre|;
    }
  }
}
