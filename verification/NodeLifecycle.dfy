/** The life cycle of a node: its transition table (`state_machine.py`) and the service that moves
    nodes, counts installation failures and keeps the audit log (`state_service.py`). */
module NodeLifecycle {
  import opened Wrappers

  /** A node's state is a string in the source; `Other` stands for every string outside the table. */
  datatype State =
    | Discovered | Pending | Installing | InstallFailed | Installed | Active | Reprovision
    | Deprovisioning | Migrating | ServingSource | CloningTarget | Retired | Other(name: string)

  // ---------------------------------------------------------------- the transition table

  function Transitions(from: State): seq<State> {
    match from
    case Discovered => [Pending, CloningTarget]
    case Pending => [Installing]
    case Installing => [Installed, InstallFailed]
    case InstallFailed => [Pending]
    case Installed => [Active, Reprovision, Retired]
    case Active => [Reprovision, Deprovisioning, Migrating, ServingSource, CloningTarget]
    case Reprovision => [Pending]
    case Deprovisioning => [Retired]
    case Migrating => [Active]
    case ServingSource => [Active]
    case CloningTarget => [Installed]
    case Retired => []
    case Other(_) => []
  }

  predicate CanTransition(from: State, to: State) {
    if to == Retired then from != Retired else to in Transitions(from)
  }

  /** The table read backwards: from where a state can be reached. */
  predicate Reaches(from: State, to: State) {
    match to
    case Pending => from == Discovered || from == InstallFailed || from == Reprovision
    case Installing => from == Pending
    case Installed => from == Installing || from == CloningTarget
    case InstallFailed => from == Installing
    case Active => from == Installed || from == Migrating || from == ServingSource
    case Reprovision => from == Installed || from == Active
    case Deprovisioning => from == Active
    case Migrating => from == Active
    case ServingSource => from == Active
    case CloningTarget => from == Discovered || from == Active
    case Retired => from != Retired
    case Discovered => false
    case Other(_) => false
  }

  lemma ReachedFrom(from: State, to: State)
    ensures CanTransition(from, to) <==> Reaches(from, to)
  {
  }

  /** Every state that can be moved to is listed, once. */
  function ValidTransitions(from: State): (valid: seq<State>)
    ensures forall to :: to in valid <==> CanTransition(from, to)
    ensures forall i, j :: 0 <= i < j < |valid| ==> valid[i] != valid[j]
  {
    var listed := Transitions(from);
    if from != Retired && Retired !in listed then listed + [Retired] else listed
  }

  // ---------------------------------------------------------------- nodes and their operations

  const MAX_INSTALL_ATTEMPTS := 3

  datatype LogEntry = LogEntry(from: State, to: State)

  datatype Snapshot = Snapshot(state: State, installAttempts: nat, lastInstallError: Option<string>, log: seq<LogEntry>)

  datatype StateError = InvalidStateTransition(from: State, to: State) | MaxAttemptsExceeded

  /** What a call leaves behind: the node, also when the call raises. */
  datatype Outcome = Outcome(node: Snapshot, error: Option<StateError>)

  /** `transition`, as a function of the node. */
  function Moved(n: Snapshot, to: State, force: bool): Outcome {
    if n.state == InstallFailed && to == Pending && !force && n.installAttempts >= MAX_INSTALL_ATTEMPTS then
      Outcome(n, Some(MaxAttemptsExceeded))
    else if !force && !CanTransition(n.state, to) then
      Outcome(n, Some(InvalidStateTransition(n.state, to)))
    else
      var reset := force || to == Installed;
      Outcome(
        Snapshot(to, if reset then 0 else n.installAttempts, if reset then None else n.lastInstallError,
                 n.log + [LogEntry(n.state, to)]),
        None)
  }

  /** `handle_install_failure`, as a function of the node: the failure is counted before the move is tried. */
  function FailureReported(n: Snapshot, error: Option<string>): Outcome {
    var counted := n.(installAttempts := n.installAttempts + 1, lastInstallError := error);
    if counted.installAttempts >= MAX_INSTALL_ATTEMPTS then Moved(counted, InstallFailed, false)
    else Outcome(counted, None)
  }

  /** What a move does: which moves raise, and with what; a move that raises changes nothing; one that does not
      is logged, and starts the counting anew exactly when it is forced or leads to installed. */
  lemma MoveCases(n: Snapshot, to: State, force: bool)
    ensures var r, retry := Moved(n, to, force), n.state == InstallFailed && to == Pending;
      && (r.error == Some(MaxAttemptsExceeded) <==> retry && !force && n.installAttempts >= 3)
      && (r.error == Some(InvalidStateTransition(n.state, to)) <==> !force && !CanTransition(n.state, to))
      && (r.error == None <==> force || (CanTransition(n.state, to) && !(retry && n.installAttempts >= 3)))
      && (r.error.Some? ==> r.node == n)
      && (r.error == None ==> r.node.state == to && r.node.log == n.log + [LogEntry(n.state, to)])
      && (r.error == None && (force || to == Installed) ==>
            r.node.installAttempts == 0 && r.node.lastInstallError == None)
      && (r.error == None && !force && to != Installed ==>
            r.node.installAttempts == n.installAttempts && r.node.lastInstallError == n.lastInstallError)
  {
    ReachedFrom(n.state, to);
    hide CanTransition;
  }

  /** What a reported failure does: it is counted with its message, and the third one while installing gives up. */
  lemma FailureCases(n: Snapshot, message: Option<string>)
    ensures var r := FailureReported(n, message);
      && r.node.installAttempts == n.installAttempts + 1 && r.node.lastInstallError == message
      && (n.installAttempts < 2 ==> r.error == None && r.node.state == n.state && r.node.log == n.log)
      && (n.installAttempts >= 2 && n.state == Installing ==>
            && r.error == None && r.node.state == InstallFailed
            && r.node.log == n.log + [LogEntry(Installing, InstallFailed)])
      && (n.installAttempts >= 2 && n.state != Installing ==>
            && r.error == Some(InvalidStateTransition(n.state, InstallFailed))
            && r.node.state == n.state && r.node.log == n.log)
  {
    ReachedFrom(n.state, InstallFailed);
    hide CanTransition;
  }

  class Node {
    var state: State
    var installAttempts: nat
    var lastInstallError: Option<string>
    var log: seq<LogEntry>

    constructor (initial: State)
      ensures Value() == Snapshot(initial, 0, None, [])
    {
      state, installAttempts, lastInstallError, log := initial, 0, None, [];
    }

    ghost function Value(): Snapshot
      reads this
    {
      Snapshot(state, installAttempts, lastInstallError, log)
    }

    method Transition(to: State, force: bool) returns (error: Option<StateError>)
      modifies this
      ensures Outcome(Value(), error) == Moved(old(Value()), to, force)
    {
      var fromState := state;
      if fromState == InstallFailed && to == Pending && !force && installAttempts >= MAX_INSTALL_ATTEMPTS {
        return Some(MaxAttemptsExceeded);
      }
      if !force && !CanTransition(fromState, to) {
        return Some(InvalidStateTransition(fromState, to));
      }
      state := to;
      if force || to == Installed {
        installAttempts := 0;
        lastInstallError := None;
      }
      log := log + [LogEntry(fromState, to)];
      return None;
    }

    method HandleInstallFailure(message: Option<string>) returns (error: Option<StateError>)
      modifies this
      ensures Outcome(Value(), error) == FailureReported(old(Value()), message)
    {
      installAttempts := installAttempts + 1;
      lastInstallError := message;
      if installAttempts >= MAX_INSTALL_ATTEMPTS {
        error := Transition(InstallFailed, false);
      } else {
        return None;
      }
    }
  }

  // ---------------------------------------------------------------- requests

  /** What callers do: an admin's or a workflow's move, a node reporting that its installation started or
      failed, and the callback of a deployment or clone that failed. */
  datatype Request =
    | Move(to: State, force: bool)
    | InstallStarted
    | InstallFailure(message: Option<string>)
    | DeployFailure(message: Option<string>)

  /** Reports that do not fit the node's state are ignored by the routes. */
  function Handled(n: Snapshot, request: Request): Outcome {
    match request
    case Move(to, force) => Moved(n, to, force)
    case InstallStarted =>
      if n.state == Pending then
        var moved := Moved(n, Installing, false);
        if moved.error.Some? then moved else Outcome(moved.node.(installAttempts := 0), None)
      else Outcome(n, None)
    case InstallFailure(message) =>
      if n.state == Installing then FailureReported(n, message) else Outcome(n, None)
    case DeployFailure(message) =>
      if n.state == Pending || n.state == Installing then FailureReported(n, message) else Outcome(n, None)
  }

  /** Which reports are heard: a start while pending, which starts the counting anew, a failed installation while
      installing, and a failed deployment in either state. */
  lemma ReportCases(n: Snapshot, message: Option<string>)
    ensures n.state != Pending ==> Handled(n, InstallStarted) == Outcome(n, None)
    ensures n.state == Pending ==>
      Handled(n, InstallStarted)
        == Outcome(Snapshot(Installing, 0, n.lastInstallError, n.log + [LogEntry(Pending, Installing)]), None)
    ensures Handled(n, InstallFailure(message))
         == if n.state == Installing then FailureReported(n, message) else Outcome(n, None)
    ensures Handled(n, DeployFailure(message))
         == if n.state in {Pending, Installing} then FailureReported(n, message) else Outcome(n, None)
  {
  }

  /** The node after a request: as the calls left it, or, when the database session rolls back a request
      that raised, as it was before. */
  function After(n: Snapshot, request: Request, rollback: bool): Snapshot {
    var outcome := Handled(n, request);
    if rollback && outcome.error.Some? then n else outcome.node
  }

  function Run(n: Snapshot, requests: seq<Request>, rollback: bool): Snapshot
    decreases |requests|
  {
    if requests == [] then n
    else
      var k := |requests| - 1;
      After(Run(n, requests[..k], rollback), requests[k], rollback)
  }

  predicate Unforced(requests: seq<Request>) {
    forall i :: 0 <= i < |requests| ==> !(requests[i].Move? && requests[i].force)
  }

  // ---------------------------------------------------------------- the audit log

  /** The entries lead from `start` to `end` without a gap. */
  predicate Chain(log: seq<LogEntry>, start: State, end: State) {
    if log == [] then start == end
    else
      var k := |log| - 1;
      log[k].to == end && Chain(log[..k], start, log[k].from)
  }

  /** A request logs the move it makes, and nothing else. */
  predicate LogsMove(before: Snapshot, after: Snapshot) {
    || (after.log == before.log && after.state == before.state)
    || after.log == before.log + [LogEntry(before.state, after.state)]
  }

  lemma RequestLogsMove(n: Snapshot, request: Request, rollback: bool)
    ensures LogsMove(n, After(n, request, rollback))
    ensures !(request.Move? && request.force) && After(n, request, rollback).log != n.log ==>
              CanTransition(n.state, After(n, request, rollback).state)
  {
  }

  lemma ChainSnoc(log: seq<LogEntry>, start: State, middle: State, end: State)
    requires Chain(log, start, middle)
    ensures Chain(log + [LogEntry(middle, end)], start, end)
  {
    var longer := log + [LogEntry(middle, end)];
    assert longer[..|longer| - 1] == log;
  }

  predicate EveryEdgeAllowed(log: seq<LogEntry>) {
    forall i :: 0 <= i < |log| ==> CanTransition(log[i].from, log[i].to)
  }

  /** In every run, forced or not, rolled back or not, the log is only ever appended to and leads from the
      initial state to the current one; without force every step of it is in the transition table. */
  lemma {:induction false} LogIsChain(start: State, requests: seq<Request>, rollback: bool)
    ensures var n := Run(Snapshot(start, 0, None, []), requests, rollback);
      && Chain(n.log, start, n.state)
      && (Unforced(requests) ==> EveryEdgeAllowed(n.log))
    decreases |requests|
  {
    hide After, CanTransition;
    if requests != [] {
      var k := |requests| - 1;
      var before := Run(Snapshot(start, 0, None, []), requests[..k], rollback);
      LogIsChain(start, requests[..k], rollback);
      RequestLogsMove(before, requests[k], rollback);
      ChainSnoc(before.log, start, before.state, After(before, requests[k], rollback).state);
    }
  }

  lemma {:induction false} LogOnlyGrows(n: Snapshot, requests: seq<Request>, rollback: bool, k: nat)
    requires k <= |requests|
    ensures Run(n, requests[..k], rollback).log <= Run(n, requests, rollback).log
    decreases |requests|
  {
    hide After;
    if k < |requests| {
      var last := |requests| - 1;
      assert requests[..last][..k] == requests[..k];
      LogOnlyGrows(n, requests[..last], rollback, k);
      RequestLogsMove(Run(n, requests[..last], rollback), requests[last], rollback);
    } else {
      assert requests[..k] == requests;
    }
  }

  /** Without force a retired node never changes again. */
  lemma {:induction false} RetiredIsAbsorbing(n: Snapshot, requests: seq<Request>, rollback: bool)
    requires n.state == Retired && Unforced(requests)
    ensures Run(n, requests, rollback) == n
    decreases |requests|
  {
    if requests != [] {
      RetiredIsAbsorbing(n, requests[..|requests| - 1], rollback);
    }
  }

  predicate Visits(log: seq<LogEntry>, state: State) {
    exists i :: 0 <= i < |log| && log[i].to == state
  }

  /** The states a discovered node can be in before it is first installed. */
  predicate BeforeInstalled(state: State) {
    state in {Discovered, Pending, Installing, InstallFailed, CloningTarget, Retired}
  }

  lemma {:induction false} EarlyStates(log: seq<LogEntry>, end: State)
    requires Chain(log, Discovered, end) && EveryEdgeAllowed(log)
    ensures Visits(log, Installed) || BeforeInstalled(end)
    decreases |log|
  {
    if log != [] {
      var k := |log| - 1;
      EarlyStates(log[..k], log[k].from);
      if Visits(log[..k], Installed) {
        var i :| 0 <= i < k && log[..k][i].to == Installed;
        assert log[i].to == Installed;
      }
    }
  }

  /** A log that leads somewhere can be cut at any entry. */
  lemma {:induction false} ChainPrefix(log: seq<LogEntry>, start: State, end: State, k: nat)
    requires Chain(log, start, end) && k < |log|
    ensures Chain(log[..k], start, log[k].from)
    decreases |log|
  {
    var last := |log| - 1;
    if k < last {
      ChainPrefix(log[..last], start, log[last].from, k);
      assert log[..last][..k] == log[..k];
    }
  }

  /** Without force, a node starting in discovered is installed before it first becomes active. */
  lemma InstalledBeforeActive(requests: seq<Request>, rollback: bool, k: nat)
    requires Unforced(requests)
    requires k < |Run(Snapshot(Discovered, 0, None, []), requests, rollback).log|
    requires Run(Snapshot(Discovered, 0, None, []), requests, rollback).log[k].to == Active
    ensures Visits(Run(Snapshot(Discovered, 0, None, []), requests, rollback).log[..k], Installed)
  {
    hide Run;
    var n := Run(Snapshot(Discovered, 0, None, []), requests, rollback);
    LogIsChain(Discovered, requests, rollback);
    ChainPrefix(n.log, Discovered, n.state, k);
    EarlyStates(n.log[..k], n.log[k].from);
  }

  // ---------------------------------------------------------------- installation attempts

  /** At most three attempts, and three only once the node has given up. */
  predicate AttemptsBounded(n: Snapshot) {
    && n.installAttempts <= 3
    && (n.installAttempts == 3 ==> n.state == InstallFailed || n.state == Retired)
  }

  /** A failure reported in any state keeps the bound on the node in memory exactly in these cases. */
  lemma FailureKeepsBoundIff(n: Snapshot, message: Option<string>)
    requires AttemptsBounded(n)
    ensures AttemptsBounded(FailureReported(n, message).node) <==>
              || n.state == Installing
              || n.installAttempts < 2
              || (n.installAttempts == 2 && (n.state == InstallFailed || n.state == Retired))
  {
  }

  /** The one request that breaks the bound in memory: a third failure called back while still pending. */
  predicate ThirdFailurePending(n: Snapshot, request: Request) {
    request.DeployFailure? && n.state == Pending && n.installAttempts == 2
  }

  lemma RequestKeepsBoundIff(n: Snapshot, request: Request)
    requires AttemptsBounded(n)
    ensures AttemptsBounded(Handled(n, request).node) <==> !ThirdFailurePending(n, request)
    ensures ThirdFailurePending(n, request) ==>
      Handled(n, request).error == Some(InvalidStateTransition(Pending, InstallFailed))
  {
  }

  /** With requests that raise rolled back, the bound holds in every run: every failure source, forced or not. */
  lemma {:induction false} CommittedAttemptsBounded(start: State, requests: seq<Request>)
    ensures AttemptsBounded(Run(Snapshot(start, 0, None, []), requests, true))
    decreases |requests|
  {
    if requests != [] {
      var k := |requests| - 1;
      hide Handled, AttemptsBounded;
      CommittedAttemptsBounded(start, requests[..k]);
      RequestKeepsBoundIff(Run(Snapshot(start, 0, None, []), requests[..k], true), requests[k]);
    } else {
      assert AttemptsBounded(Snapshot(start, 0, None, []));
    }
  }

  /** In memory it holds in every run that reports failures only while installing, even with forced moves. */
  lemma {:induction false} AttemptsBoundedWhenInstalling(start: State, requests: seq<Request>, rollback: bool)
    requires forall i :: 0 <= i < |requests| && requests[i].DeployFailure? ==>
      Run(Snapshot(start, 0, None, []), requests[..i], rollback).state == Installing
    ensures AttemptsBounded(Run(Snapshot(start, 0, None, []), requests, rollback))
    decreases |requests|
  {
    if requests != [] {
      var k := |requests| - 1;
      hide Handled, AttemptsBounded;
      assert forall i :: 0 <= i < k ==> requests[..k][..i] == requests[..i];
      AttemptsBoundedWhenInstalling(start, requests[..k], rollback);
      RequestKeepsBoundIff(Run(Snapshot(start, 0, None, []), requests[..k], rollback), requests[k]);
    } else {
      assert AttemptsBounded(Snapshot(start, 0, None, []));
    }
  }

  lemma RunSnoc(n: Snapshot, requests: seq<Request>, request: Request, rollback: bool)
    ensures Run(n, requests + [request], rollback) == After(Run(n, requests, rollback), request, rollback)
  {
    assert (requests + [request])[..|requests|] == requests;
  }

  /** The bound does fail in memory: three failed deployments of a node that never started installing. */
  lemma PendingFailuresBreakBound(message: Option<string>)
    ensures var failure := DeployFailure(message);
      var n := Run(Snapshot(Discovered, 0, None, []), [Move(Pending, false)] + [failure] + [failure] + [failure],
                   false);
      n.state == Pending && n.installAttempts == 3 && !AttemptsBounded(n)
  {
    var failure := DeployFailure(message);
    var start := Snapshot(Discovered, 0, None, []);
    var pending := Snapshot(Pending, 0, None, [LogEntry(Discovered, Pending)]);
    var first := [Move(Pending, false)];
    assert Run(start, first, false) == pending by {
      RunSnoc(start, [], Move(Pending, false), false);
      assert [] + first == first;
    }
    hide Run;
    RunSnoc(start, first, failure, false);
    RunSnoc(start, first + [failure], failure, false);
    RunSnoc(start, first + [failure] + [failure], failure, false);
  }

  /** A node that failed three times can only be retired: a retry needs force, which starts counting anew. */
  lemma GivenUpStaysFailed(n: Snapshot, request: Request, rollback: bool)
    requires n.state == InstallFailed && n.installAttempts == 3
    ensures var after := After(n, request, rollback);
      || after == n
      || (after.state == Retired && after.installAttempts == 3)
      || (request.Move? && request.force && after.installAttempts == 0)
  {
  }
}
