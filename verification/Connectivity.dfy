/** The online flag that gates queueing and draining (`ConnectivityMonitor`). */
module Connectivity {
  import opened Wrappers
  import opened Sequences

  /** The monitor's fields, with the values its listeners were called with. */
  datatype Link = Link(
    isOnline: bool,
    offlineSince: Option<int>,
    lastOnlineAt: Option<int>,
    failures: nat,
    successes: nat,
    notified: seq<bool>)

  const INITIAL := Link(true, None, None, 0, 0, [])

  /** One connectivity check and its time. */
  datatype Check = Check(reachable: bool, at: int)

  function Observe(link: Link, threshold: int, check: Check): Link {
    if check.reachable then
      var up := link.(failures := 0, successes := link.successes + 1, lastOnlineAt := Some(check.at));
      if link.isOnline then up else up.(isOnline := true, offlineSince := None, notified := link.notified + [true])
    else
      var down := link.(failures := link.failures + 1, successes := 0);
      if link.isOnline && down.failures >= threshold
      then down.(isOnline := false, offlineSince := Some(check.at), notified := link.notified + [false])
      else down
  }

  function ObserveAll(threshold: int, checks: seq<Check>): Link {
    if checks == [] then INITIAL
    else Observe(ObserveAll(threshold, checks[..|checks| - 1]), threshold, checks[|checks| - 1])
  }

  /** The failed checks after the last successful one. */
  function TrailingFailures(checks: seq<Check>): nat {
    if checks == [] || checks[|checks| - 1].reachable then 0 else 1 + TrailingFailures(checks[..|checks| - 1])
  }

  lemma {:induction false} TrailingRun(checks: seq<Check>)
    ensures var n := TrailingFailures(checks);
      && n <= |checks|
      && (forall i :: |checks| - n <= i < |checks| ==> !checks[i].reachable)
      && (n < |checks| ==> checks[|checks| - 1 - n].reachable)
  {
    if checks != [] {
      TrailingRun(checks[..|checks| - 1]);
    }
  }

  /** The successful checks after the last failed one. */
  function TrailingSuccesses(checks: seq<Check>): nat {
    if checks == [] || !checks[|checks| - 1].reachable then 0 else 1 + TrailingSuccesses(checks[..|checks| - 1])
  }

  /** After any checks, the monitor is offline exactly when the last `threshold` of them (at least
      one) failed, since the check that completed the run of failures; listeners heard of each change,
      going offline first, then in turn. */
  lemma {:induction false} OfflineAfterThreshold(threshold: int, checks: seq<Check>)
    ensures var link, n := ObserveAll(threshold, checks), TrailingFailures(checks);
      && (link.isOnline <==> n < Max(1, threshold))
      && link.failures == n <= |checks|
      && link.offlineSince
         == (if n < Max(1, threshold) then None else Some(checks[|checks| - n + Max(1, threshold) - 1].at))
      && (link.isOnline <==> |link.notified| % 2 == 0)
      && (forall i :: 0 <= i < |link.notified| ==> link.notified[i] == (i % 2 == 1))
  {
    TrailingRun(checks);
    if checks != [] {
      OfflineAfterThreshold(threshold, checks[..|checks| - 1]);
    }
  }

  /** The monitor was last online at the last successful check, and counts the successes since the last failure. */
  lemma {:induction false} LastOnline(threshold: int, checks: seq<Check>)
    ensures var link, n := ObserveAll(threshold, checks), TrailingFailures(checks);
      && n <= |checks| && link.successes == TrailingSuccesses(checks)
      && link.lastOnlineAt == if n < |checks| then Some(checks[|checks| - 1 - n].at) else None
  {
    if checks != [] {
      LastOnline(threshold, checks[..|checks| - 1]);
    }
  }

  class ConnectivityMonitor {
    const threshold: int
    var isOnline: bool
    var offlineSince: Option<int>
    var lastOnlineAt: Option<int>
    var failures: nat
    var successes: nat
    var notified: seq<bool>

    constructor (threshold: int)
      ensures this.threshold == threshold && View() == INITIAL
    {
      this.threshold := threshold;
      isOnline, offlineSince, lastOnlineAt, failures, successes, notified := true, None, None, 0, 0, [];
    }

    function View(): Link
      reads this
    {
      Link(isOnline, offlineSince, lastOnlineAt, failures, successes, notified)
    }

    /** `_update_state`. */
    method UpdateState(reachable: bool, now: int)
      modifies this
      ensures View() == Observe(old(View()), threshold, Check(reachable, now))
    {
      if reachable {
        failures := 0;
        successes := successes + 1;
        lastOnlineAt := Some(now);
        if !isOnline {
          isOnline := true;
          offlineSince := None;
          notified := notified + [true];
        }
      } else {
        successes := 0;
        failures := failures + 1;
        if isOnline && failures >= threshold {
          isOnline := false;
          offlineSince := Some(now);
          notified := notified + [false];
        }
      }
    }
  }
}
