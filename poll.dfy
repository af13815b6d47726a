/** onChange: the polling change detector. Each cycle reads the config
    file's fingerprint, fires the action when it differs from the one kept
    from the previous cycle, then keeps the new one. The unbounded loop runs
    here over a finite sequence of read outcomes, one per cycle. */
module Poll {
  import opened ErrorTrace

  /** The outcome of one md5sum read: a hex digest, or the read's error.
      The digest is an opaque string; a real MD5 hex digest is never "". */
  datatype ReadResult = Digest(fingerprint: string) | ReadFailed(error: Error)

  /** The number of cycles that read successfully before the first failed
      read: the index of that read, or |polls| when none fails. */
  function CyclesRun(polls: seq<ReadResult>): (n: nat)
    ensures n <= |polls|
    ensures forall i :: 0 <= i < n ==> polls[i].Digest?
    ensures n < |polls| ==> polls[n].ReadFailed?
  {
    if polls == [] || polls[0].ReadFailed? then 0
    else 1 + CyclesRun(polls[1..])
  }

  /** The fingerprint held in `hash` when cycle i starts: "" before the first
      cycle, afterwards the one read by cycle i - 1. */
  function StoredBefore(polls: seq<ReadResult>, i: nat): string
    requires i <= |polls|
    requires forall j :: 0 <= j < i ==> polls[j].Digest?
  {
    if i == 0 then "" else polls[i - 1].fingerprint
  }

  /** Cycle i calls the action: it is reached, its read succeeds, and the
      fingerprint differs from the stored one. */
  predicate Fires(polls: seq<ReadResult>, i: nat)
    requires i < |polls|
  {
    i < CyclesRun(polls) && polls[i].fingerprint != StoredBefore(polls, i)
  }

  /** The cycles below n that fire, in increasing order. */
  function FiredBelow(polls: seq<ReadResult>, n: nat): (r: seq<nat>)
    requires n <= |polls|
    ensures forall k :: 0 <= k < |r| ==> r[k] < n && Fires(polls, r[k])
  {
    if n == 0 then []
    else FiredBelow(polls, n - 1) + (if Fires(polls, n - 1) then [n - 1] else [])
  }

  /** The cycles at which the action fires over the whole run. */
  function FiredCycles(polls: seq<ReadResult>): seq<nat>
  {
    FiredBelow(polls, |polls|)
  }

  lemma {:induction false} FiredBelowComplete(polls: seq<ReadResult>, n: nat)
    requires n <= |polls|
    ensures forall i: nat :: i < n && Fires(polls, i) ==> i in FiredBelow(polls, n)
    ensures forall k, l :: 0 <= k < l < |FiredBelow(polls, n)| ==>
              FiredBelow(polls, n)[k] < FiredBelow(polls, n)[l]
  {
    if n > 0 {
      FiredBelowComplete(polls, n - 1);
    }
  }

  /** The action fires at cycle i if and only if cycle i is reached, reads
      successfully and sees a fingerprint other than the stored one; each
      firing cycle is listed once, in order. */
  lemma FiredCyclesIff(polls: seq<ReadResult>)
    ensures forall i: nat :: i in FiredCycles(polls) <==> i < |polls| && Fires(polls, i)
    ensures forall k, l :: 0 <= k < l < |FiredCycles(polls)| ==>
              FiredCycles(polls)[k] < FiredCycles(polls)[l]
  {
    FiredBelowComplete(polls, |polls|);
  }

  /** Cycles at or after the failing read never fire. */
  lemma {:induction false} FiredBelowStable(polls: seq<ReadResult>, n: nat)
    requires CyclesRun(polls) <= n <= |polls|
    ensures FiredBelow(polls, n) == FiredBelow(polls, CyclesRun(polls))
  {
    if n > CyclesRun(polls) {
      assert !Fires(polls, n - 1);
      assert FiredBelow(polls, n) == FiredBelow(polls, n - 1) + [];
      FiredBelowStable(polls, n - 1);
    }
  }

  /** Two runs that read the same up to n, and stop at the same cycle, fire
      at the same cycles below n. */
  lemma {:induction false} FiredBelowAgree(a: seq<ReadResult>, b: seq<ReadResult>, n: nat)
    requires n <= |a| && n <= |b|
    requires CyclesRun(a) == CyclesRun(b)
    requires forall i :: 0 <= i < n ==> a[i] == b[i]
    ensures FiredBelow(a, n) == FiredBelow(b, n)
  {
    if n > 0 {
      FiredBelowAgree(a, b, n - 1);
      assert Fires(a, n - 1) == Fires(b, n - 1);
    }
  }

  lemma {:induction false} CyclesRunStopsAtFailure(pre: seq<ReadResult>, e: Error, rest: seq<ReadResult>)
    ensures CyclesRun(pre + [ReadFailed(e)] + rest) == CyclesRun(pre)
  {
    var whole := pre + [ReadFailed(e)] + rest;
    if pre != [] {
      assert whole[0] == pre[0];
      assert whole[1..] == pre[1..] + [ReadFailed(e)] + rest;
      CyclesRunStopsAtFailure(pre[1..], e, rest);
    }
  }

  /** A failed read ends the run: nothing fires at that cycle or later, the
      cycles before it fire as they would without it, and the loop stops at
      the first failing read. */
  lemma ErrorStopsPolling(pre: seq<ReadResult>, e: Error, rest: seq<ReadResult>)
    ensures CyclesRun(pre + [ReadFailed(e)] + rest) == CyclesRun(pre) <= |pre|
    ensures FiredCycles(pre + [ReadFailed(e)] + rest) == FiredCycles(pre)
    ensures forall k :: 0 <= k < |FiredCycles(pre)| ==> FiredCycles(pre)[k] < CyclesRun(pre)
  {
    var whole := pre + [ReadFailed(e)] + rest;
    CyclesRunStopsAtFailure(pre, e, rest);
    var c := CyclesRun(pre);
    FiredBelowStable(whole, |whole|);
    FiredBelowAgree(whole, pre, c);
    FiredBelowStable(pre, |pre|);
  }

  /** The first successful read of a non-empty digest fires. */
  lemma FirstDigestFires(polls: seq<ReadResult>)
    requires polls != [] && polls[0].Digest? && polls[0].fingerprint != ""
    ensures FiredCycles(polls) != [] && FiredCycles(polls)[0] == 0
  {
    FiredCyclesIff(polls);
    assert 0 in FiredCycles(polls);
  }

  lemma {:induction false} SteadyBelow(polls: seq<ReadResult>, h: string, n: nat)
    requires forall i :: 0 <= i < |polls| ==> polls[i] == Digest(h)
    requires n <= |polls|
    ensures FiredBelow(polls, n) == if n > 0 && h != "" then [0] else []
  {
    if n > 0 {
      SteadyBelow(polls, h, n - 1);
    }
  }

  /** Unchanged content: when every cycle reads the same digest, the action
      fires once, at the first cycle (and never if the digest were ""). */
  lemma SteadyContentFiresOnce(polls: seq<ReadResult>, h: string)
    requires forall i :: 0 <= i < |polls| ==> polls[i] == Digest(h)
    ensures FiredCycles(polls) == if polls != [] && h != "" then [0] else []
  {
    SteadyBelow(polls, h, |polls|);
  }

  /** A stretch of cycles j..k-1 reading one fingerprint: none after j fires. */
  lemma EqualStretchFiresAtMostOnce(polls: seq<ReadResult>, j: nat, k: nat)
    requires j < k <= CyclesRun(polls)
    requires forall i :: j <= i < k ==> polls[i] == polls[j]
    ensures forall i: nat :: j < i < k ==> !Fires(polls, i)
  {
  }

  /** onChange over the given reads: `fired` lists the cycles at which the
      action is called, `err` is the wrapped read error that ends the loop,
      or None when the reads run out without one. */
  method OnChange(polls: seq<ReadResult>) returns (fired: seq<nat>, err: Option<Error>)
    ensures fired == FiredCycles(polls)
    ensures err.None? <==> CyclesRun(polls) == |polls|
    ensures err.Some? ==>
              CyclesRun(polls) < |polls| && err.value == Wrapped(polls[CyclesRun(polls)].error, "")
  {
    var hash := "";
    fired := [];
    var i := 0;
    while i < |polls|
      invariant i <= CyclesRun(polls)
      invariant hash == StoredBefore(polls, i)
      invariant fired == FiredBelow(polls, i)
    {
      match polls[i]
      case ReadFailed(e) =>
        var wrapped := WrapAndTrace(e, []);
        FiredBelowStable(polls, |polls|);
        err := Some(wrapped);
        return;
      case Digest(newHash) =>
        if hash != newHash {
          fired := fired + [i];
        }
        hash := newHash;
        i := i + 1;
    }
    err := None;
  }
}
