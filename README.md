# vault-utils supervisor: a Dafny model

vault-utils watches one configuration file and restarts one systemd service
when the file's content changes. This project models its decision logic in
`main.go`:

- **Throttled restart** (`restartConfig`, `restartSystemdServiceThrottledAndLog`):
  a call is skipped when less than `ThrottleThresh` (one second) has passed
  since `LastRestart`. A deferred closure sets `LastRestart` to the current
  time on every return path, the throttled early return included. The
  throttle therefore works as a sliding window: a throttled call moves the
  window forward too. A failed `systemctl restart` is only logged.
- **Poll loop** (`onChange`): the previous fingerprint is kept in `hash`,
  which starts as `""`. Each cycle reads a new fingerprint. A read error ends
  the loop with that error, wrapped. A fingerprint different from the stored
  one calls the action. The new fingerprint is then stored.
- **run**: builds a fresh `restartConfig` (zero `LastRestart`, one-second
  threshold), forces one throttled restart, then runs the poll loop with the
  throttled restart as its action.
- **Helpers**: `wrapAndTrace` builds its message by appending `" " + m` for
  each extra message; `checks` calls its closers from last to first and logs
  each error without stopping.

Modules, one per component: `ErrorTrace` (errortrace.dfy), `Throttle`
(throttle.dfy), `Poll` (poll.dfy), `Supervisor` (supervisor.dfy).

Modelling choices:

- Instants are integers: nanoseconds since Go's zero time (January 1 of year 1,
  UTC). Durations are nanoseconds, like `time.Duration`. `time.Since` is
  `Since`: the difference saturated to the int64 range, as `time.Time.Sub`
  saturates. This matters for the startup call. From the zero time to any
  real clock reading, the difference overflows int64, so it becomes the
  largest Duration. That is never below one second.
- The clocks and the service manager are inputs. Each throttled call is a
  `Call` with two clock readings: `checkedAt`, read by the throttle check
  (main.go:122), and `endedAt`, read by the deferred update (main.go:117).
  The call also carries the outcome `systemctl` would report. What each call
  did is appended to an event log (`Throttled` or `Attempted`, the latter with
  the logged error if any).
- The infinite poll loop runs over a finite sequence of read outcomes, one per
  cycle. Each outcome is a digest string or a read error. When the sequence
  runs out without an error, `OnChange` returns no error; the real loop would
  simply go on. The fingerprint is an opaque string.
- `Replay` is the specification of a series of calls on one `restartConfig`.
  `ThrottledRestart` is proved to perform one step of it. `Run` is proved to
  produce `Replay` over the startup call followed by the calls of the firing
  cycles.

Two consequences of the code are easy to miss:

- The deferred update also runs on the throttled path (main.go:116-124), so
  a throttled call moves the window forward. `ReplayAt` and
  `BurstAttemptsOnlyFirst` state this.
- `hash` starts as `""` (main.go:144), so the first poll of a non-empty
  digest always fires. With unchanged content that call comes right after the
  startup restart and is throttled: `SteadyConfigOneRestart` states the
  resulting single restart, under its timing assumption.

## Model

| member | source | states |
|---|---|---|
| `Throttle.Since` | main.go:121-122 | time.Since as a saturating difference: always within the int64 Duration range |
| `Throttle.SinceBelow` | main.go:122 | for a threshold inside the Duration range, the saturated comparison agrees with the exact one |
| `Throttle.RestartService` | main.go:133-141 | the restart returns no error exactly when the command succeeds; on failure, the command's error is wrapped with " " + its combined output |
| `Throttle.Replay` | main.go:115-131 | a series of calls yields exactly one event per call |
| `Throttle.RestartThrottle.constructor` | main.go:97 | the state run builds: LastRestart at the zero time, the given threshold, an empty log |
| `Throttle.RestartThrottle.ThrottledRestart` | main.go:115-131 | LastRestart becomes the call's exit time on every path; the log gains Throttled when the elapsed time is below the threshold, or else one Attempted entry carrying the restart's error, whatever the outcome |
| `Throttle.ReplayAt` | main.go:116-125 | sliding window: each call is decided against the end time of the call before it (or the initial LastRestart), whatever that call did |
| `Throttle.AttemptIff` | main.go:122-127 | call i attempts a restart if and only if its check time minus the previous call's end time is at least the threshold; otherwise it is throttled and nothing is run |
| `Throttle.FreshFirstCallAttempts` | main.go:97-98 | on the state run builds, the first call attempts the restart for any clock reading past the first second of year 1 |
| `Throttle.TwoQuickCallsOneAttempt` | main.go:115-125 | with a one-second threshold, two calls on a fresh state less than a second apart (for example 100 ms) give exactly one restart attempt, and the second is throttled |
| `Throttle.BurstAttemptsOnlyFirst` | main.go:116-125 | in a burst of calls, each starting less than the threshold after the previous one ended, every call but the first is throttled, however long the burst lasts |
| `Throttle.OutcomeDoesNotAffectDecisions` | main.go:116-130 | a restart's success or failure changes no throttle decision; every later event is the same, so a failure causes no lockout and no retry storm |
| `Poll.CyclesRun` | main.go:145-149 | the loop completes the cycles before the first failed read; all of those read successfully, and the failed read is the cycle where it stops |
| `Poll.FiredBelow` | main.go:150-152 | every listed cycle is one that fires |
| `Poll.FiredCyclesIff` | main.go:144-153 | the action fires at cycle i if and only if cycle i is reached, reads successfully, and its fingerprint differs from the one stored by cycle i-1 ("" for the first cycle); each firing cycle is listed once, in increasing order |
| `Poll.ErrorStopsPolling` | main.go:146-149 | a failed read stops the loop there: nothing fires at that cycle or later, and the earlier firings are those of the reads before it |
| `Poll.FirstDigestFires` | main.go:144-152 | the first successful read of a non-empty digest fires |
| `Poll.SteadyContentFiresOnce` | main.go:150-153 | when every cycle reads the same digest, the action fires once, at the first cycle, and never again |
| `Poll.EqualStretchFiresAtMostOnce` | main.go:150-153 | within a stretch of cycles that read one fingerprint, no cycle after the first fires |
| `Poll.OnChange` | main.go:143-156 | the loop calls the action exactly at the firing cycles; it returns an error exactly when some read fails, and that error is the first failure's, wrapped |
| `Supervisor.Run` | main.go:95-108 | the events are those of the forced startup call followed by one call per firing cycle, on one shared restartConfig; run fails exactly when a read fails, with that error wrapped twice |
| `Supervisor.StartupRestartAttempts` | main.go:97-98 | the forced startup call always attempts the restart |
| `Supervisor.SteadyConfigOneRestart` | main.go:97-102 | with unchanged content, and the first poll's action less than a second after startup, the run restarts exactly once: the first poll fires but is throttled |
| `Supervisor.FailedReadEndsRun` | main.go:102-105 | a failed read makes run return an error, and cycles after it contribute no restart call |
| `ErrorTrace.Joined` | main.go:173-176 | the message is empty exactly when there are no extra messages, and otherwise starts with a space |
| `ErrorTrace.JoinedSnoc` | main.go:174-175 | one more message appends exactly " " + that message |
| `ErrorTrace.WrapAndTrace` | main.go:172-178 | the result wraps the given error, with the in-order concatenation of " " + m over the messages |
| `ErrorTrace.Checks` | main.go:186-192 | every closer is called exactly once, from last to first; every error is logged, in that reverse order, and none stops the loop |

## Left out

- Flag parsing, `Config`, `LogLevel` and `Duration` validation, logrus setup
  and `main`'s exit codes (main.go:21-93, main.go:57-76). These are thin
  wrappers over libraries that are not part of this model.
- Running `systemctl restart` and capturing its output (main.go:135-136).
  This is an external process; its outcome is an input (`CommandResult`).
- `md5sum` (main.go:158-170): opening the file, `io.Copy`, MD5 and hex
  encoding. These are I/O and crypto library calls; a read is an input, either
  a digest string or an error.
- `makeErrorMessage` and the `errors.Wrap` formatting (main.go:177-184):
  `runtime.Caller` is runtime introspection. A wrapped error's message is only
  the accumulated string; the whole `"[error] %s:%d %s\n\t"` format (the
  prefix with file and line, the space before the message and the trailing
  newline and tab) is not modelled.
- `ErrorTrace.WrapAndTrace`: does not model that `errors.Wrap` returns nil for
  a nil error, because every caller in main.go passes a non-nil error.
- `time.Sleep`, the poll interval and the real clock (main.go:100, 117, 121-122,
  154): clock readings are inputs. Go's monotonic clock reading is not
  modelled; there is a single clock.
- The `Debugf` and `Info` log lines (main.go:121, 123, 134); the event log
  records only the throttle decision and the restart error.
- `Supervisor.Run`: calls the action for each firing cycle after `OnChange`
  returns, in cycle order, rather than from inside the loop. The reads are
  inputs the action cannot change, so the calls and their order are the same;
  the interleaving of reads and restarts in time is not modelled.
- A filesystem-event watcher: main.go has none, only polling.
