/** installer/service_utils.ps1: bounded polling for a service's status. */
module ServiceUtils {
  import opened Text

  const StartPollingInitialDelay: nat := 3
  const StartPollingInterval: nat := 1
  const StartPollingTimeout: nat := 30

  /** Time in milliseconds; asking for the status takes some. */
  type Duration = d: nat | d > 0 witness 1

  /** The clock before the poll with number `i`, from the start of the polling. */
  function Elapsed(i: nat, interval: nat, cost: nat -> Duration): nat {
    if i == 0 then 0 else Elapsed(i - 1, interval, cost) + interval * 1000 + cost(i - 1)
  }

  lemma {:induction false} ElapsedGrows(i: nat, j: nat, interval: nat, cost: nat -> Duration)
    requires i <= j
    ensures Elapsed(i, interval, cost) + (j - i) * (interval * 1000) + (j - i) <= Elapsed(j, interval, cost)
  {
    if i < j {
      ElapsedGrows(i, j - 1, interval, cost);
    }
  }

  lemma ElapsedStep(i: nat, interval: nat, cost: nat -> Duration)
    ensures Elapsed(0, interval, cost) == 0
    ensures Elapsed(i + 1, interval, cost) == Elapsed(i, interval, cost) + interval * 1000 + cost(i)
  {
  }

  lemma NeverEarlier(i: nat, j: nat, interval: nat, cost: nat -> Duration)
    requires i <= j
    ensures Elapsed(i, interval, cost) <= Elapsed(j, interval, cost)
  {
    ElapsedGrows(i, j, interval, cost);
    assert (j - i) * (interval * 1000) >= 0;
    hide Elapsed;
  }

  lemma TooLate(n: nat, interval: nat, timeout: nat, cost: nat -> Duration)
    requires Elapsed(n, interval, cost) >= timeout * 1000
    ensures forall i: nat :: i >= n ==> Elapsed(i, interval, cost) >= timeout * 1000
  {
    hide Elapsed;
    forall i: nat | i >= n
      ensures Elapsed(i, interval, cost) >= timeout * 1000
    {
      NeverEarlier(n, i, interval, cost);
    }
  }

  lemma PollBound(n: nat, interval: nat, timeout: nat, cost: nat -> Duration)
    requires Elapsed(n, interval, cost) < timeout * 1000
    ensures n * interval < timeout
  {
    ElapsedGrows(0, n, interval, cost);
    assert n * (interval * 1000) == (n * interval) * 1000;
  }

  /** `Wait-ServiceRunning` and `Wait-ServiceStopped`: `seen(i)` says whether poll `i`
      sees the awaited status. True exactly when a poll that begins before the
      deadline sees it; at least one interval passes between polls. */
  method WaitForStatus(seen: nat -> bool, cost: nat -> Duration, timeout: nat, interval: nat, initialDelay: nat)
    returns (reached: bool, pollCount: nat, waited: nat)
    ensures reached <==> exists i: nat :: seen(i) && Elapsed(i, interval, cost) < timeout * 1000
    ensures reached ==> pollCount > 0 && seen(pollCount - 1) && forall i: nat :: i < pollCount - 1 ==> !seen(i)
    ensures waited == initialDelay * 1000 + Elapsed(pollCount, interval, cost)
    ensures !reached ==> Elapsed(pollCount, interval, cost) >= timeout * 1000
    ensures pollCount > 0 ==> (pollCount - 1) * interval < timeout
  {
    hide Elapsed;
    ElapsedStep(0, interval, cost);
    var start := initialDelay * 1000;
    var now := start;
    var deadline := start + timeout * 1000;
    pollCount := 0;
    while now < deadline
      invariant now == start + Elapsed(pollCount, interval, cost)
      invariant forall i: nat :: i < pollCount ==> !seen(i)
      invariant pollCount > 0 ==> Elapsed(pollCount - 1, interval, cost) < timeout * 1000
      decreases deadline - now
    {
      ElapsedStep(pollCount, interval, cost);
      now := now + interval * 1000 + cost(pollCount);
      pollCount := pollCount + 1;
      if seen(pollCount - 1) {
        PollBound(pollCount - 1, interval, timeout, cost);
        return true, pollCount, now;
      }
    }
    TooLate(pollCount, interval, timeout, cost);
    if pollCount > 0 {
      PollBound(pollCount - 1, interval, timeout, cost);
    }
    return false, pollCount, now;
  }

  /** Waiting with the default times: at most thirty polls, after three seconds. */
  method WaitForRunning(seen: nat -> bool, cost: nat -> Duration) returns (reached: bool, pollCount: nat, waited: nat)
    ensures reached <==> exists i: nat :: seen(i) && Elapsed(i, 1, cost) < 30_000
    ensures reached ==> pollCount > 0 && seen(pollCount - 1) && forall i: nat :: i < pollCount - 1 ==> !seen(i)
    ensures waited == 3000 + Elapsed(pollCount, 1, cost)
    ensures !reached ==> Elapsed(pollCount, 1, cost) >= 30_000
    ensures pollCount <= 30
  {
    reached, pollCount, waited :=
      WaitForStatus(seen, cost, StartPollingTimeout, StartPollingInterval, StartPollingInitialDelay);
  }

  /** `Start-WindowsServiceWithPolling`: a start that is refused is not polled. Exit
      code 1056 says that the service is already running. */
  method StartWithPolling(startExitCode: int, seen: nat -> bool, cost: nat -> Duration, timeout: nat, interval: nat,
                          initialDelay: nat)
    returns (running: bool, pollCount: nat)
    ensures running <==> (startExitCode == 0 || startExitCode == 1056)
                         && exists i: nat :: seen(i) && Elapsed(i, interval, cost) < timeout * 1000
    ensures startExitCode != 0 && startExitCode != 1056 ==> pollCount == 0
    ensures pollCount > 0 ==> (pollCount - 1) * interval < timeout
  {
    if startExitCode == 0 || startExitCode == 1056 {
      var waited;
      running, pollCount, waited := WaitForStatus(seen, cost, timeout, interval, initialDelay);
    } else {
      running, pollCount := false, 0;
    }
  }
}
