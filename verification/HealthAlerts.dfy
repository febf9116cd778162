/** Reconciling health alerts with what each node's health has become (`health_service.py`). */
module HealthAlerts {
  import opened Wrappers
  import opened HealthScore

  type Id = nat

  datatype Kind = NodeStale | NodeOffline | LowHealthScore | InstallTimeout

  datatype Severity = Warning | Critical

  datatype AlertStatus = Active | Acknowledged | Resolved

  datatype Alert = Alert(
    nodeId: Id, kind: Kind, severity: Severity, status: AlertStatus, resolvedAt: Option<real>)

  function SeverityOf(kind: Kind): Severity {
    if kind == NodeOffline || kind == InstallTimeout then Critical else Warning
  }

  lemma SeverityTable()
    ensures SeverityOf(NodeStale) == Warning && SeverityOf(NodeOffline) == Critical
    ensures SeverityOf(LowHealthScore) == Warning && SeverityOf(InstallTimeout) == Critical
  {
  }

  // ---------------------------------------------------------------- active alerts

  predicate IsActive(alert: Alert, nodeId: Id, kind: Kind) {
    alert.nodeId == nodeId && alert.kind == kind && alert.status == Active
  }

  function ResolvedIf(alert: Alert, nodeId: Id, kind: Kind, now: real): Alert {
    if IsActive(alert, nodeId, kind) then alert.(status := Resolved, resolvedAt := Some(now)) else alert
  }

  predicate HasActive(alerts: seq<Alert>, nodeId: Id, kind: Kind) {
    exists i :: 0 <= i < |alerts| && IsActive(alerts[i], nodeId, kind)
  }

  /** At most one active alert for each node and kind. */
  predicate OneActive(alerts: seq<Alert>) {
    forall i, j :: 0 <= i < j < |alerts| && IsActive(alerts[i], alerts[j].nodeId, alerts[j].kind) ==>
      alerts[j].status != Active
  }

  /** `after` has the same active alerts as `before`, but for this node and kind, where it has one or none. */
  ghost predicate Switched(before: seq<Alert>, after: seq<Alert>, nodeId: Id, kind: Kind, on: bool) {
    && OneActive(after)
    && forall n, k :: HasActive(after, n, k) <==> if n == nodeId && k == kind then on else HasActive(before, n, k)
  }

  /** `added` are the rows appended: active, about this node and of these kinds. Of the rows before, only active
      ones of this node and these kinds may have changed, by being resolved. */
  predicate RowsAdded(before: seq<Alert>, after: seq<Alert>, nodeId: Id, kinds: set<Kind>, added: seq<Alert>) {
    && |after| == |before| + |added|
    && (forall i :: 0 <= i < |before| ==> Untouched(before[i], after[i], nodeId, kinds))
    && (forall i :: 0 <= i < |added| ==> after[|before| + i] == added[i] && NewRow(added[i], nodeId, kinds))
  }

  predicate Untouched(before: Alert, after: Alert, nodeId: Id, kinds: set<Kind>) {
    after == before || (before.nodeId == nodeId && before.kind in kinds && IsResolved(before, after))
  }

  /** An active alert that has been resolved. */
  predicate IsResolved(before: Alert, after: Alert) {
    before.status == Active && after.resolvedAt.Some?
    && after == before.(status := Resolved, resolvedAt := after.resolvedAt)
  }

  predicate NewRow(alert: Alert, nodeId: Id, kinds: set<Kind>) {
    alert.nodeId == nodeId && alert.kind in kinds && alert.status == Active
  }

  lemma RowsAddedTwice(before: seq<Alert>, middle: seq<Alert>, after: seq<Alert>, nodeId: Id,
                       kinds: set<Kind>, others: set<Kind>, first: seq<Alert>, second: seq<Alert>)
    requires RowsAdded(before, middle, nodeId, kinds, first) && RowsAdded(middle, after, nodeId, others, second)
    requires kinds !! others
    ensures RowsAdded(before, after, nodeId, kinds + others, first + second)
  {
    forall i | 0 <= i < |first + second|
      ensures after[|before| + i] == (first + second)[i] && NewRow((first + second)[i], nodeId, kinds + others)
    {
      if i < |first| {
        assert Untouched(middle[|before| + i], after[|before| + i], nodeId, others);
      } else {
        assert after[|middle| + (i - |first|)] == second[i - |first|];
      }
    }
  }

  /** Rows added earlier for other nodes stay as they are. */
  lemma RowsAddedAfter(start: nat, before: seq<Alert>, after: seq<Alert>, nodeId: Id, kinds: set<Kind>,
                       earlier: seq<Alert>, added: seq<Alert>)
    requires start + |earlier| == |before| && earlier == before[start..]
    requires forall i :: 0 <= i < |earlier| ==> earlier[i].nodeId != nodeId
    requires RowsAdded(before, after, nodeId, kinds, added)
    ensures |after| == start + |earlier + added| && after[start..] == earlier + added
    ensures forall i :: 0 <= i < |added| ==> added[i].nodeId == nodeId && added[i].status == Active
  {
    forall i | 0 <= i < |earlier|
      ensures after[start..][i] == earlier[i]
    {
      assert earlier[i] == before[start + i];
      assert Untouched(before[start + i], after[start + i], nodeId, kinds);
    }
    assert forall i :: 0 <= i < |added| ==> after[|before| + i] == added[i] && NewRow(added[i], nodeId, kinds);
  }

  lemma Appended(alerts: seq<Alert>, alert: Alert)
    requires OneActive(alerts) && alert.status == Active && !HasActive(alerts, alert.nodeId, alert.kind)
    ensures Switched(alerts, alerts + [alert], alert.nodeId, alert.kind, true)
  {
    var after := alerts + [alert];
    assert after[|alerts|] == alert;
    forall n, k | HasActive(after, n, k)
      ensures HasActive(alerts, n, k) || (n == alert.nodeId && k == alert.kind)
    {
      var i :| 0 <= i < |after| && IsActive(after[i], n, k);
      assert i < |alerts| ==> IsActive(alerts[i], n, k);
    }
    forall n, k | HasActive(alerts, n, k)
      ensures HasActive(after, n, k)
    {
      var i :| 0 <= i < |alerts| && IsActive(alerts[i], n, k);
      assert IsActive(after[i], n, k);
    }
  }

  lemma Closed(alerts: seq<Alert>, i: nat, closed: Alert)
    requires OneActive(alerts) && i < |alerts| && alerts[i].status == Active
    requires closed.nodeId == alerts[i].nodeId && closed.kind == alerts[i].kind && closed.status != Active
    ensures Switched(alerts, alerts[i := closed], closed.nodeId, closed.kind, false)
  {
    var after := alerts[i := closed];
    forall n, k | HasActive(after, n, k)
      ensures HasActive(alerts, n, k) && !(n == closed.nodeId && k == closed.kind)
    {
      var j :| 0 <= j < |after| && IsActive(after[j], n, k);
      assert IsActive(alerts[j], n, k);
    }
    forall n, k | HasActive(alerts, n, k) && !(n == closed.nodeId && k == closed.kind)
      ensures HasActive(after, n, k)
    {
      var j :| 0 <= j < |alerts| && IsActive(alerts[j], n, k);
      assert IsActive(after[j], n, k);
    }
  }

  lemma Unswitched(alerts: seq<Alert>, nodeId: Id, kind: Kind)
    requires OneActive(alerts)
    ensures Switched(alerts, alerts, nodeId, kind, HasActive(alerts, nodeId, kind))
  {
  }

  function Listed(alert: Option<Alert>): seq<Alert> {
    if alert.Some? then [alert.value] else []
  }

  // ---------------------------------------------------------------- what a check leaves behind

  /** Whether an alert of this kind is active for a node after a check that found it like this. */
  predicate ActiveAfter(kind: Kind, status: Status, score: int, s: Settings, before: bool) {
    match kind
    case NodeStale =>
      if status == Stale && s.alertOnStale then true
      else if (status == Offline && s.alertOnOffline) || status == Healthy then false
      else before
    case NodeOffline =>
      if status == Offline && s.alertOnOffline then true else if status == Healthy then false else before
    case LowHealthScore => if s.alertOnScoreBelow > 0 then score < s.alertOnScoreBelow else before
    case InstallTimeout => before
  }

  /** The alerts of one node are as a check leaves them, and those of other nodes as they were. */
  ghost predicate Reconciled(before: seq<Alert>, after: seq<Alert>, nodeId: Id, status: Status, score: int,
                             s: Settings) {
    forall n, kind :: HasActive(after, n, kind) <==>
      if n == nodeId then ActiveAfter(kind, status, score, s, HasActive(before, n, kind))
      else HasActive(before, n, kind)
  }

  // ---------------------------------------------------------------- whole runs

  /** What happens to a node's alerts: a check, an acknowledgement, or a report of the node itself. */
  datatype Event =
    | Checked(nodeId: Id, status: Status, score: int, settings: Settings)
    | Acked(nodeId: Id, kind: Kind)
    | Reported(nodeId: Id, status: Status)

  predicate ActiveAfterEvent(nodeId: Id, kind: Kind, event: Event, before: bool) {
    if event.nodeId != nodeId then before
    else
      match event
      case Checked(_, status, score, s) => ActiveAfter(kind, status, score, s, before)
      case Acked(_, acked) => if acked == kind then false else before
      case Reported(_, status) => !(status == Healthy && (kind == NodeStale || kind == NodeOffline)) && before
  }

  /** Whether the alert is active after these events, when none was before them. */
  predicate ActiveAfterAll(nodeId: Id, kind: Kind, history: seq<Event>)
    decreases |history|
  {
    if history == [] then false
    else
      var k := |history| - 1;
      ActiveAfterEvent(nodeId, kind, history[k], ActiveAfterAll(nodeId, kind, history[..k]))
  }

  /** The alerts are what the history has made of them. */
  ghost predicate Recorded(alerts: seq<Alert>, history: seq<Event>) {
    forall n, kind :: HasActive(alerts, n, kind) <==> ActiveAfterAll(n, kind, history)
  }

  /** The event calls for the alert. */
  predicate Raises(event: Event, nodeId: Id, kind: Kind) {
    && event.nodeId == nodeId && event.Checked?
    && match kind
       case NodeStale => event.status == Stale && event.settings.alertOnStale
       case NodeOffline => event.status == Offline && event.settings.alertOnOffline
       case LowHealthScore => event.score < event.settings.alertOnScoreBelow && event.settings.alertOnScoreBelow > 0
       case InstallTimeout => false
  }

  /** The event ends the alert. */
  predicate Clears(event: Event, nodeId: Id, kind: Kind) {
    event.nodeId == nodeId &&
    match event
    case Acked(_, acked) => acked == kind
    case Reported(_, status) => status == Healthy && (kind == NodeStale || kind == NodeOffline)
    case Checked(_, status, score, s) =>
      match kind
      case NodeStale => status == Healthy || (status == Offline && s.alertOnOffline)
      case NodeOffline => status == Healthy
      case LowHealthScore => score >= s.alertOnScoreBelow > 0
      case InstallTimeout => false
  }

  predicate NotClearedSince(history: seq<Event>, i: int, nodeId: Id, kind: Kind) {
    forall j :: i < j < |history| && 0 <= j ==> !Clears(history[j], nodeId, kind)
  }

  /** Some event called for the alert, and none since then has ended it. */
  predicate Standing(history: seq<Event>, nodeId: Id, kind: Kind) {
    exists i :: 0 <= i < |history| && Raises(history[i], nodeId, kind) && NotClearedSince(history, i, nodeId, kind)
  }

  lemma StandingStep(history: seq<Event>, nodeId: Id, kind: Kind)
    requires history != []
    ensures var k := |history| - 1;
      Standing(history, nodeId, kind) <==>
        Raises(history[k], nodeId, kind) || (!Clears(history[k], nodeId, kind) && Standing(history[..k], nodeId, kind))
  {
    hide Raises, Clears;
    var k := |history| - 1;
    if Raises(history[k], nodeId, kind) {
      assert NotClearedSince(history, k, nodeId, kind);
    } else if Standing(history[..k], nodeId, kind) {
      var i :| 0 <= i < k && Raises(history[..k][i], nodeId, kind) && NotClearedSince(history[..k], i, nodeId, kind);
      assert forall j :: i < j < k ==> !Clears(history[..k][j], nodeId, kind);
      assert !Clears(history[k], nodeId, kind) ==> NotClearedSince(history, i, nodeId, kind);
    }
    if Standing(history, nodeId, kind) && !Raises(history[k], nodeId, kind) {
      var i :| 0 <= i < |history| && Raises(history[i], nodeId, kind) && NotClearedSince(history, i, nodeId, kind);
      assert NotClearedSince(history[..k], i, nodeId, kind) && Raises(history[..k][i], nodeId, kind);
    }
  }

  /** Over every run of checks, acknowledgements and reports, an alert is active exactly when some check called
      for it and nothing has ended it since: coming back from offline to stale does not end the offline alert. */
  lemma {:induction false} AlertsRemember(history: seq<Event>, nodeId: Id, kind: Kind)
    ensures ActiveAfterAll(nodeId, kind, history) <==> Standing(history, nodeId, kind)
    decreases |history|
  {
    hide Standing;
    if history != [] {
      var k := |history| - 1;
      AlertsRemember(history[..k], nodeId, kind);
      StandingStep(history, nodeId, kind);
    } else {
      NothingStands(nodeId, kind);
    }
  }

  lemma NothingStands(nodeId: Id, kind: Kind)
    ensures !Standing([], nodeId, kind)
  {
  }

  lemma HistorySnoc(history: seq<Event>, event: Event, nodeId: Id, kind: Kind)
    ensures ActiveAfterAll(nodeId, kind, history + [event])
        <==> ActiveAfterEvent(nodeId, kind, event, ActiveAfterAll(nodeId, kind, history))
  {
    assert (history + [event])[..|history|] == history;
  }

  /** One more event keeps alerts and history together. */
  lemma RecordedNext(before: seq<Alert>, after: seq<Alert>, history: seq<Event>, event: Event)
    requires Recorded(before, history)
    requires forall n, kind ::
      HasActive(after, n, kind) <==> ActiveAfterEvent(n, kind, event, HasActive(before, n, kind))
    ensures Recorded(after, history + [event])
  {
    hide HasActive, ActiveAfterEvent;
    forall n, kind
      ensures HasActive(after, n, kind) <==> ActiveAfterAll(n, kind, history + [event])
    {
      HistorySnoc(history, event, n, kind);
    }
  }

  // ---------------------------------------------------------------- the objects

  class Node {
    const id: Id
    var retired: bool
    var vitals: Vitals
    var healthStatus: Option<Status>
    var healthScore: int

    constructor (id: Id, vitals: Vitals)
      ensures this.id == id && this.vitals == vitals && !retired && healthStatus == None && healthScore == 100
    {
      this.id, this.vitals, retired, healthStatus, healthScore := id, vitals, false, None, 100;
    }

    /** Its status and score are those of some moments between `from` and `to`. */
    ghost predicate Current(s: Settings, from: real, to: real)
      requires s.offlineMinutes != 0
      reads this
    {
      && healthStatus.Some?
      && StatusWithin(vitals, healthStatus.value, s, from, to)
      && ScoreWithin(vitals, healthScore, s, from, to)
    }

    /** Its active alerts are as a check that found its status and score leaves them. */
    ghost predicate AlertsFit(before: seq<Alert>, after: seq<Alert>, s: Settings)
      reads this
    {
      && healthStatus.Some?
      && forall kind :: HasActive(after, id, kind) <==>
           ActiveAfter(kind, healthStatus.value, healthScore, s, HasActive(before, id, kind))
    }
  }

  ghost predicate StatusWithin(v: Vitals, status: Status, s: Settings, from: real, to: real) {
    exists t :: from <= t <= to && status == StatusAt(v, t, s)
  }

  ghost predicate ScoreWithin(v: Vitals, score: int, s: Settings, from: real, to: real)
    requires s.offlineMinutes != 0
  {
    exists t :: from <= t <= to && score == ScoreAt(v, t, s)
  }

  /** The status of a node whose last sighting lay on one side of each threshold at every moment from `from` to `to`. */
  ghost predicate Judged(v: Vitals, status: Status, s: Settings, from: real, to: real) {
    && (v.lastSeen.None? ==> status == Unknown)
    && (v.lastSeen.Some? ==>
          var seen, stale, offline := v.lastSeen.value, 60.0 * s.staleMinutes as real, 60.0 * s.offlineMinutes as real;
          && (to - seen <= stale ==> status == Healthy)
          && (stale < from - seen && to - seen <= offline ==> status == Stale)
          && (stale < from - seen && offline < from - seen ==> status == Offline))
  }

  lemma JudgedWithin(v: Vitals, status: Status, s: Settings, from: real, to: real)
    requires StatusWithin(v, status, s, from, to)
    ensures Judged(v, status, s, from, to)
  {
    var t :| from <= t <= to && status == StatusAt(v, t, s);
    StatusBySeconds(v, t, s);
    hide StatusAt;
  }

  /** The stale and offline alerts such a node has after a check: none when it was seen within the stale threshold, and
      otherwise the one that the settings ask for. */
  ghost predicate AlertsByAge(v: Vitals, id: Id, alerts: seq<Alert>, s: Settings, from: real, to: real) {
    v.lastSeen.Some? ==>
      var seen, stale, offline := v.lastSeen.value, 60.0 * s.staleMinutes as real, 60.0 * s.offlineMinutes as real;
      && (to - seen <= stale ==> !HasActive(alerts, id, NodeStale) && !HasActive(alerts, id, NodeOffline))
      && (s.alertOnStale && stale < from - seen && to - seen <= offline ==> HasActive(alerts, id, NodeStale))
      && (s.alertOnOffline && stale < from - seen && offline < from - seen ==>
            HasActive(alerts, id, NodeOffline) && !HasActive(alerts, id, NodeStale))
  }

  lemma FitMeansByAge(node: Node, before: seq<Alert>, after: seq<Alert>, s: Settings, from: real, to: real)
    requires s.offlineMinutes != 0 && node.Current(s, from, to) && node.AlertsFit(before, after, s)
    ensures Judged(node.vitals, node.healthStatus.value, s, from, to)
    ensures AlertsByAge(node.vitals, node.id, after, s, from, to)
  {
    hide HasActive, StatusAt, StatusWithin, ScoreWithin;
    JudgedWithin(node.vitals, node.healthStatus.value, s, from, to);
  }

  lemma AllByAge(nodes: seq<Node>, before: seq<Alert>, after: seq<Alert>, s: Settings, from: real, to: real)
    requires s.offlineMinutes != 0
    requires forall i :: 0 <= i < |nodes| && !nodes[i].retired ==>
      nodes[i].Current(s, from, to) && nodes[i].AlertsFit(before, after, s)
    ensures forall i :: 0 <= i < |nodes| && !nodes[i].retired ==>
      && nodes[i].healthStatus.Some? && Judged(nodes[i].vitals, nodes[i].healthStatus.value, s, from, to)
      && AlertsByAge(nodes[i].vitals, nodes[i].id, after, s, from, to)
  {
    hide Judged, AlertsByAge, ActiveAfter, HasActive, StatusWithin, ScoreWithin;
    forall i | 0 <= i < |nodes| && !nodes[i].retired
      ensures Judged(nodes[i].vitals, nodes[i].healthStatus.value, s, from, to)
      ensures AlertsByAge(nodes[i].vitals, nodes[i].id, after, s, from, to)
    {
      FitMeansByAge(nodes[i], before, after, s, from, to);
    }
  }

  lemma CurrentWidens(node: Node, s: Settings, from: real, to: real, start: real, end: real)
    requires s.offlineMinutes != 0 && start <= from && to <= end && node.Current(s, from, to)
    ensures node.Current(s, start, end)
  {
    hide StatusAt, ScoreAt;
  }

  lemma OthersStillFit(node: Node, start: seq<Alert>, before: seq<Alert>, after: seq<Alert>, checked: Node, s: Settings)
    requires node.AlertsFit(start, before, s) && node.id != checked.id && checked.healthStatus.Some?
    requires Reconciled(before, after, checked.id, checked.healthStatus.value, checked.healthScore, s)
    ensures node.AlertsFit(start, after, s)
  {
    hide HasActive, ActiveAfter;
  }

  /** A node just checked, whose alerts nothing had touched before. */
  lemma CheckedFits(node: Node, start: seq<Alert>, before: seq<Alert>, after: seq<Alert>, s: Settings)
    requires node.healthStatus.Some?
    requires Reconciled(before, after, node.id, node.healthStatus.value, node.healthScore, s)
    requires forall kind :: HasActive(before, node.id, kind) <==> HasActive(start, node.id, kind)
    ensures node.AlertsFit(start, after, s)
  {
    hide HasActive, ActiveAfter;
  }

  /** Settling the alerts on status first and the one on the score after it. */
  lemma ReconciledTwice(before: seq<Alert>, middle: seq<Alert>, after: seq<Alert>, nodeId: Id,
                        status: Status, score: int, s: Settings)
    requires Reconciled(before, middle, nodeId, status, score, s.(alertOnScoreBelow := 0))
    requires Reconciled(middle, after, nodeId, Unknown, score, s)
    ensures Reconciled(before, after, nodeId, status, score, s)
  {
    hide HasActive;
  }

  class HealthService {
    var alerts: seq<Alert>
    /** Every check, acknowledgement and report so far. */
    ghost var history: seq<Event>

    constructor ()
      ensures Valid() && alerts == [] && history == []
    {
      alerts, history := [], [];
    }

    ghost predicate Valid()
      reads this
    {
      OneActive(alerts) && Recorded(alerts, history)
    }

    /** An alert is active exactly when a check called for it and nothing has ended it since. */
    lemma AlertsStand(nodeId: Id, kind: Kind)
      requires Valid()
      ensures HasActive(alerts, nodeId, kind) <==> Standing(history, nodeId, kind)
    {
      hide HasActive, Standing, ActiveAfterAll;
      AlertsRemember(history, nodeId, kind);
    }

    /** The active alert a query finds; with at most one of them, the query never raises. */
    method FindActive(nodeId: Id, kind: Kind) returns (at: Option<nat>)
      ensures at.None? <==> !HasActive(alerts, nodeId, kind)
      ensures at.Some? ==> at.value < |alerts| && IsActive(alerts[at.value], nodeId, kind)
    {
      for i := 0 to |alerts|
        invariant forall j :: 0 <= j < i ==> !IsActive(alerts[j], nodeId, kind)
      {
        if IsActive(alerts[i], nodeId, kind) {
          return Some(i);
        }
      }
      return None;
    }

    /** `_create_alert_if_new`. */
    method CreateAlertIfNew(nodeId: Id, kind: Kind) returns (alert: Option<Alert>)
      requires OneActive(alerts)
      modifies this`alerts
      ensures OneActive(alerts) && Switched(old(alerts), alerts, nodeId, kind, true)
      ensures alert.Some? <==> !old(HasActive(alerts, nodeId, kind))
      ensures alert.Some? ==> alert.value == Alert(nodeId, kind, SeverityOf(kind), Active, None)
      ensures alerts == old(alerts) + Listed(alert)
      ensures RowsAdded(old(alerts), alerts, nodeId, {kind}, Listed(alert))
    {
      hide OneActive, HasActive;
      var existing := FindActive(nodeId, kind);
      if existing.Some? {
        Unswitched(alerts, nodeId, kind);
        return None;
      }
      var created := Alert(nodeId, kind, SeverityOf(kind), Active, None);
      Appended(alerts, created);
      alerts := alerts + [created];
      return Some(created);
    }

    /** `resolve_alert`. */
    method ResolveAlert(nodeId: Id, kind: Kind, now: real) returns (resolved: bool)
      requires OneActive(alerts)
      modifies this`alerts
      ensures OneActive(alerts) && Switched(old(alerts), alerts, nodeId, kind, false)
      ensures resolved <==> old(HasActive(alerts, nodeId, kind))
      ensures |alerts| == |old(alerts)|
      ensures forall i :: 0 <= i < |alerts| ==> alerts[i] == ResolvedIf(old(alerts)[i], nodeId, kind, now)
      ensures RowsAdded(old(alerts), alerts, nodeId, {kind}, [])
    {
      hide HasActive;
      var at := FindActive(nodeId, kind);
      if at.Some? {
        var closed := alerts[at.value].(status := Resolved, resolvedAt := Some(now));
        Closed(alerts, at.value, closed);
        alerts := alerts[at.value := closed];
        return true;
      }
      NoneActive(alerts, nodeId, kind);
      Unswitched(alerts, nodeId, kind);
      return false;
    }

    method UpdateNodeHealth(node: Node, s: Settings, now: real) returns (status: Status, score: int, later: real)
      requires s.offlineMinutes != 0
      modifies node`healthStatus, node`healthScore
      ensures now <= later && node.Current(s, now, later)
      ensures node.healthStatus == Some(status) && node.healthScore == score
      ensures Judged(node.vitals, status, s, now, later)
    {
      hide Judged;
      var t := Clock(now);
      status := StatusAt(node.vitals, t, s);
      later := Clock(t);
      var breakdown;
      score, breakdown := CalculateHealthScore(node.vitals, later, s);
      node.healthStatus, node.healthScore := Some(status), score;
      JudgedWithin(node.vitals, status, s, now, later);
    }

    method SettleStatus(nodeId: Id, status: Status, s: Settings, now: real) returns (added: seq<Alert>)
      requires OneActive(alerts)
      modifies this`alerts
      ensures OneActive(alerts)
      ensures forall score :: Reconciled(old(alerts), alerts, nodeId, status, score, s.(alertOnScoreBelow := 0))
      ensures RowsAdded(old(alerts), alerts, nodeId, {NodeStale, NodeOffline}, added)
    {
      hide HasActive, OneActive, RowsAdded;
      added := [];
      if status == Stale && s.alertOnStale {
        var alert := CreateAlertIfNew(nodeId, NodeStale);
        added := added + Listed(alert);
        assert added == Listed(alert);
        NothingAdded(alerts, nodeId, {NodeOffline});
        RowsAddedTwice(old(alerts), alerts, alerts, nodeId, {NodeStale}, {NodeOffline}, added, []);
        assert added + [] == added && {NodeStale} + {NodeOffline} == {NodeStale, NodeOffline};
      } else if status == Offline && s.alertOnOffline {
        var alert := CreateAlertIfNew(nodeId, NodeOffline);
        added := added + Listed(alert);
        assert added == Listed(alert);
        ghost var middle := alerts;
        var _ := ResolveAlert(nodeId, NodeStale, now);
        RowsAddedTwice(old(alerts), middle, alerts, nodeId, {NodeOffline}, {NodeStale}, added, []);
        assert added + [] == added && {NodeOffline} + {NodeStale} == {NodeStale, NodeOffline};
      } else if status == Healthy {
        var _ := ResolveAlert(nodeId, NodeStale, now);
        ghost var middle := alerts;
        var _ := ResolveAlert(nodeId, NodeOffline, now);
        RowsAddedTwice(old(alerts), middle, alerts, nodeId, {NodeStale}, {NodeOffline}, [], []);
        assert {NodeStale} + {NodeOffline} == {NodeStale, NodeOffline};
      } else {
        NothingAdded(alerts, nodeId, {NodeStale, NodeOffline});
      }
    }

    method SettleScore(nodeId: Id, score: int, s: Settings, now: real) returns (added: seq<Alert>)
      requires OneActive(alerts)
      modifies this`alerts
      ensures OneActive(alerts) && Reconciled(old(alerts), alerts, nodeId, Unknown, score, s)
      ensures RowsAdded(old(alerts), alerts, nodeId, {LowHealthScore}, added)
    {
      hide HasActive, OneActive, RowsAdded;
      added := [];
      var threshold := s.alertOnScoreBelow;
      if threshold > 0 && score < threshold {
        var alert := CreateAlertIfNew(nodeId, LowHealthScore);
        added := added + Listed(alert);
        assert added == Listed(alert);
      } else if threshold > 0 && score >= threshold {
        var _ := ResolveAlert(nodeId, LowHealthScore, now);
      } else {
        NothingAdded(alerts, nodeId, {LowHealthScore});
      }
    }

    /** One round of the loop in `check_all_nodes`. */
    method CheckNode(node: Node, s: Settings, now: real) returns (added: seq<Alert>, later: real)
      requires Valid() && s.offlineMinutes != 0
      modifies this, node`healthStatus, node`healthScore
      ensures Valid() && now <= later && node.Current(s, now, later) && node.healthStatus.Some?
      ensures Reconciled(old(alerts), alerts, node.id, node.healthStatus.value, node.healthScore, s)
      ensures RowsAdded(old(alerts), alerts, node.id, CHECKED_KINDS, added)
      ensures history == old(history) + [Checked(node.id, node.healthStatus.value, node.healthScore, s)]
    {
      hide StatusWithin, ScoreWithin, Reconciled, RowsAdded, OneActive, Recorded;
      var status, score;
      status, score, later := UpdateNodeHealth(node, s, now);
      var onStatus := SettleStatus(node.id, status, s, later);
      ghost var middle := alerts;
      var onScore := SettleScore(node.id, score, s, later);
      added := onStatus + onScore;
      ReconciledTwice(old(alerts), middle, alerts, node.id, status, score, s);
      RowsAddedTwice(old(alerts), middle, alerts, node.id, {NodeStale, NodeOffline}, {LowHealthScore}, onStatus,
                     onScore);
      CheckRecorded(old(alerts), alerts, history, node.id, status, score, s);
      history := history + [Checked(node.id, status, score, s)];
    }

    /** The health part of a node's own report: its health is updated, and a healthy node loses its stale and
        offline alerts. */
    method ReportHealth(node: Node, s: Settings, now: real) returns (later: real)
      requires Valid() && s.offlineMinutes != 0
      modifies this, node`healthStatus, node`healthScore
      ensures Valid() && now <= later && node.Current(s, now, later) && node.healthStatus.Some?
      ensures RowsAdded(old(alerts), alerts, node.id, {NodeStale, NodeOffline}, [])
      ensures history == old(history) + [Reported(node.id, node.healthStatus.value)]
    {
      hide StatusWithin, ScoreWithin, RowsAdded, OneActive, Recorded, HasActive;
      var status, score;
      status, score, later := UpdateNodeHealth(node, s, now);
      if status == Healthy {
        var _ := ResolveAlert(node.id, NodeStale, later);
        ghost var middle := alerts;
        var _ := ResolveAlert(node.id, NodeOffline, later);
        RowsAddedTwice(old(alerts), middle, alerts, node.id, {NodeStale}, {NodeOffline}, [], []);
        assert {NodeStale} + {NodeOffline} == {NodeStale, NodeOffline};
      } else {
        NothingAdded(alerts, node.id, {NodeStale, NodeOffline});
      }
      RecordedNext(old(alerts), alerts, history, Reported(node.id, status));
      history := history + [Reported(node.id, status)];
    }

    /** `check_all_nodes`: retired nodes are not looked at, and the rows returned are the rows created. */
    method CheckAllNodes(nodes: seq<Node>, s: Settings, now: real)
      returns (newAlerts: seq<Alert>, later: real, ghost checked: set<Id>)
      requires Valid() && s.offlineMinutes != 0
      requires forall i, j :: 0 <= i < j < |nodes| ==> nodes[i].id != nodes[j].id
      modifies this, nodes
      ensures Valid() && now <= later && old(history) <= history
      ensures forall i :: 0 <= i < |nodes| ==>
        nodes[i].vitals == old(nodes[i].vitals) && nodes[i].retired == old(nodes[i].retired)
      ensures forall i :: 0 <= i < |nodes| && nodes[i].retired ==> unchanged(nodes[i])
      ensures forall i :: 0 <= i < |nodes| && !nodes[i].retired ==> nodes[i].Current(s, now, later)
      ensures forall i :: 0 <= i < |nodes| && !nodes[i].retired ==> nodes[i].AlertsFit(old(alerts), alerts, s)
      // In particular, by when each node was last seen, if the thresholds were not crossed during the check.
      ensures forall i :: 0 <= i < |nodes| && !nodes[i].retired ==>
        && nodes[i].healthStatus.Some? && Judged(nodes[i].vitals, nodes[i].healthStatus.value, s, now, later)
        && AlertsByAge(nodes[i].vitals, nodes[i].id, alerts, s, now, later)
      ensures forall n, kind :: n !in checked ==> (HasActive(alerts, n, kind) <==> HasActive(old(alerts), n, kind))
      ensures |alerts| == |old(alerts)| + |newAlerts| && alerts[|old(alerts)|..] == newAlerts
      ensures forall i :: 0 <= i < |newAlerts| ==> newAlerts[i].status == Active && newAlerts[i].nodeId in checked
      // Every other row is as it was, but for active alerts of checked nodes that were resolved.
      ensures RowsKept(old(alerts), alerts, checked)
      ensures forall i :: 0 <= i < |nodes| ==> (nodes[i].id in checked <==> !nodes[i].retired)
      ensures forall id :: id in checked ==> exists i :: 0 <= i < |nodes| && nodes[i].id == id
    {
      hide HasActive, OneActive, ActiveAfter, RowsAdded, RowsKept, Recorded, Node.Current, Node.AlertsFit,
        Judged, AlertsByAge;
      newAlerts, later, checked := [], now, {};
      ghost var start := alerts;
      AllRowsKept(start);
      for k := 0 to |nodes|
        invariant Valid() && now <= later && old(history) <= history
        invariant forall i :: 0 <= i < |nodes| ==>
          nodes[i].vitals == old(nodes[i].vitals) && nodes[i].retired == old(nodes[i].retired)
        invariant forall i :: 0 <= i < |nodes| && (nodes[i].retired || i >= k) ==> unchanged(nodes[i])
        invariant forall i :: 0 <= i < k && !nodes[i].retired ==> nodes[i].Current(s, now, later)
        invariant forall i :: 0 <= i < k && !nodes[i].retired ==> nodes[i].AlertsFit(start, alerts, s)
        invariant forall n, kind :: n !in checked ==> (HasActive(alerts, n, kind) <==> HasActive(start, n, kind))
        invariant |alerts| == |start| + |newAlerts| && alerts[|start|..] == newAlerts
        invariant forall i :: 0 <= i < |newAlerts| ==> newAlerts[i].status == Active && newAlerts[i].nodeId in checked
        invariant RowsKept(start, alerts, checked)
        invariant forall i :: 0 <= i < |nodes| ==> (nodes[i].id in checked <==> i < k && !nodes[i].retired)
        invariant forall id :: id in checked ==> exists i :: 0 <= i < |nodes| && nodes[i].id == id
      {
        if !nodes[k].retired {
          ghost var before, until := alerts, later;
          label Before:
          var added;
          added, later := CheckNode(nodes[k], s, later);
          RowsAddedAfter(|start|, before, alerts, nodes[k].id, CHECKED_KINDS, newAlerts, added);
          RowsKeptNext(start, before, alerts, checked, nodes[k].id, added);
          newAlerts, checked := newAlerts + added, checked + {nodes[k].id};
          forall i | 0 <= i <= k && !nodes[i].retired
            ensures nodes[i].Current(s, now, later) && nodes[i].AlertsFit(start, alerts, s)
          {
            if i < k {
              CurrentWidens(nodes[i], s, now, until, now, later);
              assert old@Before(nodes[i].AlertsFit(start, before, s));
              OthersStillFit(nodes[i], start, before, alerts, nodes[k], s);
            } else {
              CurrentWidens(nodes[i], s, until, later, now, later);
              CheckedFits(nodes[k], start, before, alerts, s);
            }
          }
        }
      }
      AllByAge(nodes, start, alerts, s, now, later);
    }

    /** The acknowledge endpoint: only an active alert can be acknowledged. */
    method Acknowledge(i: nat) returns (ok: bool)
      requires Valid() && i < |alerts|
      modifies this
      ensures Valid() && ok == (old(alerts)[i].status == Active)
      ensures ok ==> Switched(old(alerts), alerts, old(alerts)[i].nodeId, old(alerts)[i].kind, false)
      ensures alerts == if ok then old(alerts)[i := old(alerts)[i].(status := Acknowledged)] else old(alerts)
      ensures history == if ok then old(history) + [Acked(old(alerts)[i].nodeId, old(alerts)[i].kind)] else old(history)
    {
      if alerts[i].status != Active {
        return false;
      }
      hide OneActive, Recorded, HasActive;
      var closed := alerts[i].(status := Acknowledged);
      Closed(alerts, i, closed);
      RecordedNext(alerts, alerts[i := closed], history, Acked(closed.nodeId, closed.kind));
      alerts, history := alerts[i := closed], history + [Acked(closed.nodeId, closed.kind)];
      return true;
    }
  }

  /** The kinds of alerts that a check looks after. */
  const CHECKED_KINDS: set<Kind> := {NodeStale, NodeOffline} + {LowHealthScore}

  /** Rows are only appended, and those before unchanged but for alerts of `ids` that were active and are resolved. */
  predicate RowsKept(before: seq<Alert>, after: seq<Alert>, ids: set<Id>) {
    && |before| <= |after|
    && forall i :: 0 <= i < |before| ==>
         after[i] == before[i]
         || (before[i].nodeId in ids && before[i].kind in CHECKED_KINDS && IsResolved(before[i], after[i]))
  }

  lemma AllRowsKept(alerts: seq<Alert>)
    ensures RowsKept(alerts, alerts, {})
  {
  }

  lemma RowsKeptNext(start: seq<Alert>, before: seq<Alert>, after: seq<Alert>, ids: set<Id>, id: Id, added: seq<Alert>)
    requires RowsKept(start, before, ids) && RowsAdded(before, after, id, CHECKED_KINDS, added)
    ensures RowsKept(start, after, ids + {id})
  {
    forall i | 0 <= i < |start|
      ensures after[i] == start[i]
        || (start[i].nodeId in ids + {id} && start[i].kind in CHECKED_KINDS && IsResolved(start[i], after[i]))
    {
      assert Untouched(before[i], after[i], id, CHECKED_KINDS);
    }
  }

  lemma CheckRecorded(before: seq<Alert>, after: seq<Alert>, history: seq<Event>, nodeId: Id, status: Status,
                      score: int, s: Settings)
    requires Recorded(before, history) && Reconciled(before, after, nodeId, status, score, s)
    ensures Recorded(after, history + [Checked(nodeId, status, score, s)])
  {
    hide HasActive, Recorded;
    RecordedNext(before, after, history, Checked(nodeId, status, score, s));
  }

  /** A reading of the clock. */
  method Clock(now: real) returns (t: real)
    ensures now <= t
  {
    var wait: real := *;
    t := if wait >= 0.0 then now + wait else now;
  }

  lemma NothingAdded(alerts: seq<Alert>, nodeId: Id, kinds: set<Kind>)
    ensures RowsAdded(alerts, alerts, nodeId, kinds, [])
  {
  }

  lemma NoneActive(alerts: seq<Alert>, nodeId: Id, kind: Kind)
    requires !HasActive(alerts, nodeId, kind)
    ensures forall i :: 0 <= i < |alerts| ==> !IsActive(alerts[i], nodeId, kind)
  {
  }
}
