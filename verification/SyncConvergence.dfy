/** What the offline pipeline promises end to end: operations issued offline and drained later
    reach central as if they had been issued online. */
module SyncConvergence {
  import opened Wrappers
  import opened SyncQueue
  import opened Connectivity
  import opened CentralProxy
  import opened QueueProcessor

  // ---------------------------------------------------------------- what one undisturbed drain means

  /** Every row that was pending is delivered, or still pending, or failed, and only one of these; a
      row that failed was tried as often as its budget allowed, and no row more often. */
  lemma DrainSplitsPending(before: Table, rows: Table, out: seq<Id>, begun: seq<Id>, sent: seq<Sent>,
                           processed: nat, failed: nat, maxRetries: int, siteId: string, id: Id)
    requires Run(before, rows, out, begun, sent, processed, failed, maxRetries, siteId)
    requires id in before && before[id].status == Pending
    ensures id in out <==> id !in rows
    ensures id in rows ==> rows[id].status == Pending || rows[id].status == Failed
    ensures id in rows && rows[id].status == Failed ==>
      multiset(begun)[id] == TriesLeft(before[id].attempts, maxRetries)
    ensures multiset(begun)[id] <= TriesLeft(before[id].attempts, maxRetries)
    ensures before[id].attempts == 0 && maxRetries >= 0 ==> multiset(begun)[id] <= maxRetries + 1
  {
    if id in rows {
      assert Retried(before[id], rows[id], multiset(begun)[id], maxRetries);
    }
  }

  /** A drain without a failed attempt delivered the oldest pending rows, oldest first, left the
      others alone, and sent each delivered row's request once; it fails only if something was refused. */
  lemma SuccessfulDrain(before: Table, rows: Table, out: seq<Id>, begun: seq<Id>, sent: seq<Sent>,
                        processed: nat, failed: nat, maxRetries: int, siteId: string)
    requires Run(before, rows, out, begun, sent, processed, failed, maxRetries, siteId)
    ensures failed == 0 ==>
      && OldestFirst(before, out) && SentInOrder(before, out, sent, siteId)
      && rows == before - (set id | id in out)
    ensures failed > 0 ==>
      || (exists id :: id in before && QueuedRequest(before[id].payload, siteId).None?)
      || (exists i :: 0 <= i < |sent| && !Accepted(sent[i]))
  {
    if failed == 0 {
      forall id | id in rows
        ensures rows[id] == before[id]
      {
        UntriedRow(before, rows, out, maxRetries, id);
      }
    }
  }

  // ---------------------------------------------------------------- same requests, same order

  /** The operations whose queued payload a handler accepts. */
  predicate ValidOp(op: Op) {
    match op
    case RegisterNode(_) => true
    case UpdateNodeState(nodeId, newState, _) => nodeId != "" && newState != ""
    case ReportNodeEvent(nodeId, _) => nodeId != ""
  }

  /** Queueing and draining an operation sends the very request it sends online, exactly when it is valid. */
  lemma QueuedAsOnline(op: Op, siteId: string)
    ensures QueuedRequest(OfflinePayload(op, siteId), siteId) == Some(OnlineRequest(op, siteId)) <==> ValidOp(op)
  {
  }

  function Requests(log: seq<Sent>): (requests: seq<Request>)
    ensures |requests| == |log|
    ensures forall i :: 0 <= i < |log| ==> requests[i] == log[i].request
  {
    seq(|log|, i requires 0 <= i < |log| => log[i].request)
  }

  function OnlineRequests(ops: seq<Op>, siteId: string): (requests: seq<Request>)
    ensures |requests| == |ops|
    ensures forall i :: 0 <= i < |ops| ==> requests[i] == OnlineRequest(ops[i], siteId)
  {
    seq(|ops|, i requires 0 <= i < |ops| => OnlineRequest(ops[i], siteId))
  }

  /** The table holds the older rows `base` and exactly the rows of `ops`, in rising id and time from `first` on. */
  ghost predicate Queued(base: Table, rows: Table, ops: seq<Op>, first: Id, siteId: string) {
    && (forall id :: id in rows <==> id in base || first <= id < first + |ops|)
    && (forall id :: id in base ==> id < first && rows[id] == base[id])
    && QueuedOps(rows, ops, first, siteId)
    && Rising(rows, first, |ops|)
    && (forall id, other :: id in base && first <= other < first + |ops| ==> rows[id].createdAt < rows[other].createdAt)
  }

  ghost predicate QueuedOps(rows: Table, ops: seq<Op>, first: Id, siteId: string) {
    forall id :: first <= id < first + |ops| ==>
      id in rows && rows[id].payload == OfflinePayload(ops[id - first], siteId) && rows[id].status == Pending
  }

  ghost predicate Rising(rows: Table, first: Id, n: nat) {
    forall id, other :: first <= id < other < first + n ==>
      id in rows && other in rows && rows[id].createdAt < rows[other].createdAt
  }

  lemma {:induction false} RisingCover(s: seq<Id>, first: Id, n: nat)
    requires forall i, j :: 0 <= i < j < |s| ==> s[i] < s[j]
    requires forall i :: 0 <= i < |s| ==> first <= s[i] < first + n
    requires forall id :: first <= id < first + n ==> id in s
    ensures |s| == n && forall i :: 0 <= i < n ==> s[i] == first + i
    decreases n
  {
    if s == [] {
      assert n == 0 || first in s;
    } else {
      assert first in s && s[0] == first;
      forall id | first + 1 <= id < first + n
        ensures id in s[1..]
      {
        assert id in s && s == [s[0]] + s[1..];
      }
      RisingCover(s[1..], first + 1, n - 1);
      assert forall i :: 1 <= i < |s| ==> s[i] == s[1..][i - 1];
    }
  }

  /** `front` lists the pending rows of a table, each once, oldest first. */
  ghost predicate Backlog(base: Table, front: seq<Id>) {
    (forall id :: id in front <==> id in WithStatus(base, Pending)) && ByAge(base, front)
  }

  /** The ids are distinct rows of the table, oldest first. */
  ghost predicate ByAge(rows: Table, ids: seq<Id>) {
    forall i, j :: 0 <= i < j < |ids| ==>
      ids[i] in rows && ids[j] in rows && ids[i] != ids[j] && rows[ids[i]].createdAt <= rows[ids[j]].createdAt
  }

  /** Every pending row has a payload that a handler accepts. */
  ghost predicate ValidBacklog(base: Table, siteId: string) {
    forall id :: id in WithStatus(base, Pending) ==> QueuedRequest(base[id].payload, siteId).Some?
  }

  function BacklogRequests(base: Table, front: seq<Id>, siteId: string): (requests: seq<Request>)
    requires ValidBacklog(base, siteId) && forall id :: id in front ==> id in WithStatus(base, Pending)
    ensures |requests| == |front|
    ensures forall i :: 0 <= i < |front| ==>
      front[i] in base && Some(requests[i]) == QueuedRequest(base[front[i]].payload, siteId)
  {
    seq(|front|, i requires 0 <= i < |front| =>
      assert front[i] in front;
      QueuedRequest(base[front[i]].payload, siteId).value)
  }

  /** All pending rows were delivered, each once, oldest first. */
  ghost predicate AllDelivered(before: Table, out: seq<Id>) {
    (forall id :: id in out <==> id in WithStatus(before, Pending)) && ByAge(before, out)
  }

  lemma CompleteMeansAll(before: Table, rows: Table, out: seq<Id>)
    requires OldestFirst(before, out) && WithStatus(rows, Pending) == {}
    requires rows == before - (set id | id in out)
    requires forall id :: id in out ==> id in before && before[id].status == Pending
    requires forall i, j :: 0 <= i < j < |out| ==> out[i] != out[j]
    ensures AllDelivered(before, out)
  {
    forall id | id in WithStatus(before, Pending)
      ensures id in out
    {
      assert id !in WithStatus(rows, Pending);
    }
  }

  /** The older rows are delivered first: up to some place all ids are old, and from there on all are new. */
  lemma OldBeforeNew(base: Table, before: Table, ops: seq<Op>, first: Id, out: seq<Id>, siteId: string) returns (n: nat)
    requires Queued(base, before, ops, first, siteId) && AllDelivered(before, out)
    ensures n <= |out|
    ensures forall i :: 0 <= i < n ==> out[i] in base
    ensures forall i :: n <= i < |out| ==> first <= out[i] < first + |ops|
  {
    hide OfflinePayload;
    n := 0;
    while n < |out| && out[n] in base
      invariant n <= |out| && forall i :: 0 <= i < n ==> out[i] in base
    {
      n := n + 1;
    }
    forall i | n <= i < |out|
      ensures first <= out[i] < first + |ops|
    {
      assert out[i] in out && out[n] in out;
      if i > n {
        assert before[out[n]].createdAt <= before[out[i]].createdAt;
      }
    }
  }

  /** The new rows are delivered in the order in which they were issued. */
  lemma NewInOrder(base: Table, before: Table, ops: seq<Op>, first: Id, out: seq<Id>, siteId: string, n: nat)
    requires Queued(base, before, ops, first, siteId) && AllDelivered(before, out) && n <= |out|
    requires forall i :: 0 <= i < n ==> out[i] in base
    requires forall i :: n <= i < |out| ==> first <= out[i] < first + |ops|
    ensures |out| == n + |ops| && forall i :: n <= i < |out| ==> out[i] == first + (i - n)
  {
    var tail := out[n..];
    forall i, j | 0 <= i < j < |tail|
      ensures tail[i] < tail[j]
    {
      NewRising(base, before, ops, first, out, siteId, n + i, n + j);
    }
    forall id | first <= id < first + |ops|
      ensures id in tail
    {
      NewDelivered(base, before, ops, first, out, siteId, n, id);
    }
    RisingCover(tail, first, |ops|);
    assert forall i :: n <= i < |out| ==> out[i] == tail[i - n];
  }

  lemma NewRising(base: Table, before: Table, ops: seq<Op>, first: Id, out: seq<Id>, siteId: string, i: nat, j: nat)
    requires Queued(base, before, ops, first, siteId) && AllDelivered(before, out) && i < j < |out|
    requires first <= out[i] < first + |ops| && first <= out[j] < first + |ops|
    ensures out[i] < out[j]
  {
    hide OfflinePayload;
  }

  lemma NewDelivered(base: Table, before: Table, ops: seq<Op>, first: Id, out: seq<Id>, siteId: string, n: nat, id: Id)
    requires Queued(base, before, ops, first, siteId) && AllDelivered(before, out) && n <= |out|
    requires (forall i :: 0 <= i < n ==> out[i] in base) && first <= id < first + |ops|
    ensures id in out[n..]
  {
    hide OfflinePayload;
    assert id in WithStatus(before, Pending) && id !in base;
    var i :| 0 <= i < |out| && out[i] == id;
    assert out[n..][i - n] == id;
  }

  /** A complete drain without failures first clears the backlog, oldest first, and then delivers the
      operations issued behind it in the order in which they were issued. */
  lemma IssueOrder(base: Table, before: Table, ops: seq<Op>, first: Id, out: seq<Id>, sent: seq<Sent>, siteId: string)
    returns (front: seq<Id>)
    requires Queued(base, before, ops, first, siteId) && AllDelivered(before, out)
    requires SentInOrder(before, out, sent, siteId)
    requires ValidBacklog(base, siteId) && forall i :: 0 <= i < |ops| ==> ValidOp(ops[i])
    ensures Backlog(base, front) && |sent| == |front| + |ops|
    ensures forall id :: id in front ==> id in WithStatus(base, Pending)
    ensures Requests(sent) == BacklogRequests(base, front, siteId) + OnlineRequests(ops, siteId)
  {
    hide Queued, AllDelivered, SentInOrder, QueuedRequest, OnlineRequest, OfflinePayload, ValidBacklog, ValidOp,
      Backlog;
    var n := OldBeforeNew(base, before, ops, first, out, siteId);
    NewInOrder(base, before, ops, first, out, siteId, n);
    front := out[..n];
    FrontIsBacklog(base, before, ops, first, out, siteId, n);
    SentLength(before, out, sent, siteId);
    var old_, new_ := BacklogRequests(base, front, siteId), OnlineRequests(ops, siteId);
    forall i | 0 <= i < n
      ensures Requests(sent)[i] == old_[i]
    {
      OldRequest(base, before, ops, first, out, sent, siteId, i);
      assert front[i] == out[i];
    }
    forall i | n <= i < |out|
      ensures Requests(sent)[i] == new_[i - n]
    {
      NewRequest(base, before, ops, first, out, sent, siteId, i);
    }
    TwoParts(Requests(sent), old_, new_);
  }

  lemma SentLength(before: Table, out: seq<Id>, sent: seq<Sent>, siteId: string)
    requires SentInOrder(before, out, sent, siteId)
    ensures |sent| == |out|
  {
  }

  lemma TwoParts(all: seq<Request>, left: seq<Request>, right: seq<Request>)
    requires |all| == |left| + |right|
    requires forall i :: 0 <= i < |left| ==> all[i] == left[i]
    requires forall i :: |left| <= i < |all| ==> all[i] == right[i - |left|]
    ensures all == left + right
  {
  }

  lemma FrontIsBacklog(base: Table, before: Table, ops: seq<Op>, first: Id, out: seq<Id>, siteId: string, n: nat)
    requires Queued(base, before, ops, first, siteId) && AllDelivered(before, out) && n <= |out|
    requires forall i :: 0 <= i < n ==> out[i] in base
    requires forall i :: n <= i < |out| ==> first <= out[i] < first + |ops|
    ensures Backlog(base, out[..n]) && forall id :: id in out[..n] ==> id in WithStatus(base, Pending)
  {
    hide OfflinePayload;
    var front := out[..n];
    forall id | id in WithStatus(base, Pending)
      ensures id in front
    {
      assert id in WithStatus(before, Pending);
      var i :| 0 <= i < |out| && out[i] == id;
      assert front[i] == id;
    }
    forall id | id in front
      ensures id in WithStatus(base, Pending)
    {
      var i :| 0 <= i < n && front[i] == id;
      assert out[i] in out && out[i] in base;
    }
  }

  lemma OldRequest(base: Table, before: Table, ops: seq<Op>, first: Id, out: seq<Id>, sent: seq<Sent>, siteId: string,
                   i: nat)
    requires Queued(base, before, ops, first, siteId) && SentInOrder(before, out, sent, siteId)
    requires i < |out| && out[i] in base
    ensures i < |sent| && Some(Requests(sent)[i]) == QueuedRequest(base[out[i]].payload, siteId)
  {
    hide OfflinePayload, QueuedRequest, Accepted;
  }

  lemma NewRequest(base: Table, before: Table, ops: seq<Op>, first: Id, out: seq<Id>, sent: seq<Sent>, siteId: string,
                   i: nat)
    requires Queued(base, before, ops, first, siteId) && SentInOrder(before, out, sent, siteId)
    requires i < |out| && first <= out[i] < first + |ops| && ValidOp(ops[out[i] - first])
    ensures i < |sent| && Requests(sent)[i] == OnlineRequest(ops[out[i] - first], siteId)
  {
    QueuedAsOnline(ops[out[i] - first], siteId);
    hide OfflinePayload, QueuedRequest, OnlineRequest, Accepted, ValidOp;
  }

  // ---------------------------------------------------------------- the cache agrees with central

  /** State updates that carry a cached MAC, each node known by one MAC only. */
  ghost predicate CachedUpdates(ops: seq<Op>, cache: Cache) {
    && (forall i :: 0 <= i < |ops| ==>
          ops[i].UpdateNodeState? && ops[i].mac.Some? && ops[i].mac.value != "" && ops[i].mac.value in cache)
    && (forall i, j :: 0 <= i < |ops| && 0 <= j < |ops| ==>
      (ops[i].mac == ops[j].mac <==> ops[i].nodeId == ops[j].nodeId))
  }

  predicate AllUpdates(ops: seq<Op>) {
    forall i :: 0 <= i < |ops| ==> ops[i].UpdateNodeState?
  }

  function CacheAfterAll(cache: Cache, ops: seq<Op>): Cache
    requires AllUpdates(ops)
  {
    if ops == [] then cache
    else
      var last := ops[|ops| - 1];
      CacheAfterUpdate(CacheAfterAll(cache, ops[..|ops| - 1]), last.nodeId, last.newState, last.mac)
  }

  /** For every node touched, the agent's cache and central hold the same state. */
  ghost predicate Agrees(ops: seq<Op>, cache: Cache, nodes: map<string, string>)
    requires AllUpdates(ops)
  {
    forall i :: 0 <= i < |ops| ==>
      && ops[i].mac.Some? && ops[i].mac.value in cache && ops[i].nodeId in nodes
      && cache[ops[i].mac.value].state == nodes[ops[i].nodeId]
  }

  lemma NodesNext(log: seq<Sent>, sent: seq<Sent>, n: nat)
    requires |sent| == n + 1 && sent[n].request.PatchState? && Accepted(sent[n])
    ensures NodesOf(log + sent) == NodesOf(log + sent[..n])[sent[n].request.nodeId := sent[n].request.state]
  {
    hide Accepted;
    var all := log + sent;
    assert all[..|all| - 1] == log + sent[..n] && all[|all| - 1] == sent[n];
    assert NodesOf(all) == NodesOf(all[..|all| - 1])[sent[n].request.nodeId := sent[n].request.state];
  }

  /** One more update keeps the two in agreement, because it names the same node to both. */
  lemma AgreesNext(cache0: Cache, ops: seq<Op>, n: nat, cache: Cache, nodes: map<string, string>)
    requires |ops| == n + 1 && CachedUpdates(ops, cache0) && cache.Keys == cache0.Keys && Agrees(ops[..n], cache, nodes)
    ensures CacheAfterUpdate(cache, ops[n].nodeId, ops[n].newState, ops[n].mac).Keys == cache0.Keys
    ensures Agrees(ops, CacheAfterUpdate(cache, ops[n].nodeId, ops[n].newState, ops[n].mac),
                   nodes[ops[n].nodeId := ops[n].newState])
  {
    assert ops[n].mac.value in cache0;
    var cache', nodes' := CacheAfterUpdate(cache, ops[n].nodeId, ops[n].newState, ops[n].mac),
      nodes[ops[n].nodeId := ops[n].newState];
    forall i | 0 <= i < n
      ensures ops[i].mac.value in cache' && ops[i].nodeId in nodes'
        && cache'[ops[i].mac.value].state == nodes'[ops[i].nodeId]
    {
      assert ops[..n][i] == ops[i];
      assert ops[i].mac == ops[n].mac <==> ops[i].nodeId == ops[n].nodeId;
    }
  }

  lemma {:induction false} CacheAgrees(cache: Cache, ops: seq<Op>, log: seq<Sent>, sent: seq<Sent>, siteId: string)
    requires CachedUpdates(ops, cache)
    requires Requests(sent) == OnlineRequests(ops, siteId)
    requires forall i :: 0 <= i < |sent| ==> Accepted(sent[i])
    ensures CacheAfterAll(cache, ops).Keys == cache.Keys
    ensures Agrees(ops, CacheAfterAll(cache, ops), NodesOf(log + sent))
    decreases |ops|
  {
    if ops != [] {
      var n := |ops| - 1;
      assert |sent| == |ops|;
      forall i | 0 <= i < n
        ensures Requests(sent[..n])[i] == OnlineRequests(ops[..n], siteId)[i]
      {
        assert Requests(sent)[i] == OnlineRequests(ops, siteId)[i];
      }
      CacheAgrees(cache, ops[..n], log, sent[..n], siteId);
      assert sent[n].request == OnlineRequests(ops, siteId)[n];
      NodesNext(log, sent, n);
      AgreesNext(cache, ops, n, CacheAfterAll(cache, ops[..n]), NodesOf(log + sent[..n]));
    }
  }

  // ---------------------------------------------------------------- end to end

  lemma QueuedNext(base: Table, rows: Table, ops: seq<Op>, k: nat, first: Id, siteId: string, at: int)
    requires k < |ops| && Queued(base, rows, ops[..k], first, siteId)
    requires forall id :: id in rows ==> rows[id].createdAt < at
    ensures Queued(base, rows[first + k := Row(OfflinePayload(ops[k], siteId), at, 0, Pending, None)], ops[..k + 1],
                   first, siteId)
  {
    QueuedOpsNext(rows, ops, k, first, siteId, at);
    RisingNext(rows, k, first, Row(OfflinePayload(ops[k], siteId), at, 0, Pending, None));
    hide OfflinePayload, QueuedOps, Rising;
    assert |ops[..k + 1]| == k + 1;
  }

  lemma QueuedOpsNext(rows: Table, ops: seq<Op>, k: nat, first: Id, siteId: string, at: int)
    requires k < |ops| && QueuedOps(rows, ops[..k], first, siteId)
    ensures QueuedOps(rows[first + k := Row(OfflinePayload(ops[k], siteId), at, 0, Pending, None)], ops[..k + 1],
                      first, siteId)
  {
    hide OfflinePayload;
    assert forall i :: 0 <= i < k ==> ops[..k][i] == ops[..k + 1][i];
    assert ops[..k + 1][k] == ops[k];
  }

  lemma RisingNext(rows: Table, k: nat, first: Id, row: Row)
    requires Rising(rows, first, k) && first + k !in rows
    requires forall id :: first <= id < first + k ==> id in rows
    requires forall id :: id in rows ==> rows[id].createdAt < row.createdAt
    ensures Rising(rows[first + k := row], first, k + 1)
  {
  }

  lemma QueuedNone(base: Table, ops: seq<Op>, first: Id, siteId: string)
    requires forall id :: id in base ==> id < first
    ensures Queued(base, base, ops[..0], first, siteId)
  {
  }

  lemma CacheNone(cache: Cache, ops: seq<Op>)
    ensures CacheAfterAll(cache, ops[..0]) == cache
  {
  }

  lemma CacheNext(cache: Cache, ops: seq<Op>, k: nat)
    requires k < |ops| && forall i :: 0 <= i <= k ==> ops[i].UpdateNodeState?
    ensures CacheAfterAll(cache, ops[..k + 1])
         == CacheAfterUpdate(CacheAfterAll(cache, ops[..k]), ops[k].nodeId, ops[k].newState, ops[k].mac)
  {
    assert ops[..k + 1][..k] == ops[..k];
  }

  /** Callers issuing operations one after the other while the agent stays offline, behind whatever is queued. */
  method IssueOffline(p: CentralProxy, ops: seq<Op>)
    requires p.queue.Valid() && p.FreshIds() && !p.monitor.isOnline
    modifies p, p.queue`rows, p.queue`enqueued, p.central
    ensures p.queue.Valid() && p.FreshIds() && p.central.log == old(p.central.log)
    ensures forall id :: id in old(p.queue.enqueued) ==>
      id in p.queue.enqueued && p.queue.enqueued[id] == old(p.queue.enqueued)[id]
    ensures forall id :: id in old(p.issuedAt) ==> id in p.issuedAt && p.issuedAt[id] == old(p.issuedAt)[id]
    ensures Queued(old(p.queue.rows), p.queue.rows, ops, old(p.nextId), p.siteId)
    ensures AllUpdates(ops) ==> p.cache == CacheAfterAll(old(p.cache), ops)
  {
    hide SyncQueue.Valid, Queued, CacheAfterAll, IssuedWithin;
    p.queue.RowsEnqueued();
    QueuedNone(p.queue.rows, ops, p.nextId, p.siteId);
    CacheNone(p.cache, ops);
    for k := 0 to |ops|
      invariant p.queue.Valid() && p.FreshIds() && p.central.log == old(p.central.log)
      invariant p.nextId == old(p.nextId) + k
      invariant forall id :: id in old(p.queue.enqueued) ==>
        id in p.queue.enqueued && p.queue.enqueued[id] == old(p.queue.enqueued)[id]
      invariant forall id :: id in old(p.issuedAt) ==> id in p.issuedAt && p.issuedAt[id] == old(p.issuedAt)[id]
      invariant Queued(old(p.queue.rows), p.queue.rows, ops[..k], old(p.nextId), p.siteId)
      invariant AllUpdates(ops) ==> p.cache == CacheAfterAll(old(p.cache), ops[..k])
    {
      ghost var rows := p.queue.rows;
      var _ := p.Issue(ops[k]);
      QueuedNext(old(p.queue.rows), rows, ops, k, old(p.nextId), p.siteId, p.clock);
      if AllUpdates(ops) {
        CacheNext(old(p.cache), ops, k);
      }
    }
    assert ops[..|ops|] == ops;
  }

  /** The same callers while the agent stays online. */
  method IssueOnline(p: CentralProxy, ops: seq<Op>)
    requires p.queue.Valid() && p.FreshIds() && p.monitor.isOnline
    modifies p, p.queue`rows, p.queue`enqueued, p.central
    ensures p.queue.Valid() && p.FreshIds() && p.queue.rows == old(p.queue.rows)
    ensures Requests(p.central.log) == Requests(old(p.central.log)) + OnlineRequests(ops, p.siteId)
  {
    for k := 0 to |ops|
      invariant p.queue.Valid() && p.FreshIds() && p.queue.rows == old(p.queue.rows)
      invariant Requests(p.central.log) == Requests(old(p.central.log)) + OnlineRequests(ops[..k], p.siteId)
    {
      ghost var log := p.central.log;
      var _ := p.Issue(ops[k]);
      assert Requests(p.central.log) == Requests(log) + [OnlineRequest(ops[k], p.siteId)];
      assert OnlineRequests(ops[..k + 1], p.siteId)
          == OnlineRequests(ops[..k], p.siteId) + [OnlineRequest(ops[k], p.siteId)];
    }
    assert ops[..|ops|] == ops;
  }

  /** Operations that a handler accepts, issued behind a backlog that it accepts. */
  ghost predicate Deliverable(base: Table, ops: seq<Op>, siteId: string) {
    ValidBacklog(base, siteId) && forall i :: 0 <= i < |ops| ==> ValidOp(ops[i])
  }

  /** Central's log since `log`: the backlog oldest first, and then exactly what issuing online sends. */
  ghost predicate SentLikeOnline(base: Table, ops: seq<Op>, log: seq<Sent>, after: seq<Sent>, siteId: string)
    requires ValidBacklog(base, siteId)
  {
    exists front :: Backlog(base, front)
      && Requests(after) == Requests(log) + BacklogRequests(base, front, siteId) + OnlineRequests(ops, siteId)
  }

  /** With every send accepted, a drain has no failure. */
  lemma NothingRefused(base: Table, before: Table, rows: Table, out: seq<Id>, begun: seq<Id>, sent: seq<Sent>,
                       processed: nat, failed: nat, maxRetries: int, siteId: string, ops: seq<Op>, first: Id)
    requires Run(before, rows, out, begun, sent, processed, failed, maxRetries, siteId)
    requires Queued(base, before, ops, first, siteId) && Deliverable(base, ops, siteId)
    requires forall i :: 0 <= i < |sent| ==> Accepted(sent[i])
    ensures failed == 0
  {
    forall id | id in begun
      ensures id in before && QueuedRequest(before[id].payload, siteId).Some?
    {
      assert id in before && before[id].status == Pending;
      if id in base {
        assert id in WithStatus(base, Pending);
      } else {
        QueuedAsOnline(ops[id - first], siteId);
      }
    }
    hide Drained, Queued, Deliverable, QueuedRequest, Accepted;
  }

  /** The outcome of draining queued operations when central accepted everything: no failure, and if
      nothing is left pending, the requests of backlog and operations in order, and an agreeing cache. */
  lemma DrainConverges(base: Table, before: Table, rows: Table, out: seq<Id>, begun: seq<Id>, log: seq<Sent>,
                       sent: seq<Sent>, processed: nat, failed: nat, maxRetries: int, siteId: string,
                       ops: seq<Op>, first: Id, cache: Cache)
    requires Run(before, rows, out, begun, sent, processed, failed, maxRetries, siteId)
    requires Queued(base, before, ops, first, siteId) && Deliverable(base, ops, siteId)
    requires forall i :: 0 <= i < |sent| ==> Accepted(sent[i])
    ensures failed == 0 && ValidBacklog(base, siteId)
    ensures WithStatus(rows, Pending) == {} ==>
      && SentLikeOnline(base, ops, log, log + sent, siteId)
      && rows == base - WithStatus(base, Pending)
      && (CachedUpdates(ops, cache) ==> Agrees(ops, CacheAfterAll(cache, ops), NodesOf(log + sent)))
  {
    hide Run, OldestFirst, SentInOrder, AllDelivered, Queued, Backlog, Agrees, CachedUpdates, NodesOf, ValidBacklog,
      ValidOp, Accepted, Requests, OnlineRequests, BacklogRequests, CacheAfterAll, WithStatus;
    NothingRefused(base, before, rows, out, begun, sent, processed, failed, maxRetries, siteId, ops, first);
    if WithStatus(rows, Pending) == {} {
      CompleteRun(before, rows, out, begun, sent, processed, failed, maxRetries, siteId);
      var front := IssueOrder(base, before, ops, first, out, sent, siteId);
      OnlyRestLeft(base, before, rows, ops, first, out, siteId);
      LogGrows(log, sent, BacklogRequests(base, front, siteId), OnlineRequests(ops, siteId));
      CacheConverges(cache, ops, log, sent, BacklogRequests(base, front, siteId), siteId);
    }
  }

  /** Whatever the backlog did, the operations issued behind it leave cache and central in agreement. */
  lemma CacheConverges(cache: Cache, ops: seq<Op>, log: seq<Sent>, sent: seq<Sent>, backlog: seq<Request>,
                       siteId: string)
    requires Requests(sent) == backlog + OnlineRequests(ops, siteId)
    requires forall i :: 0 <= i < |sent| ==> Accepted(sent[i])
    ensures CachedUpdates(ops, cache) ==> Agrees(ops, CacheAfterAll(cache, ops), NodesOf(log + sent))
  {
    hide Accepted, Agrees, NodesOf, OnlineRequest, Requests, OnlineRequests;
    if CachedUpdates(ops, cache) {
      hide CachedUpdates;
      var n := |backlog|;
      OpsLast(sent, n, backlog, ops, siteId);
      CacheAgrees(cache, ops, log + sent[..n], sent[n..], siteId);
      assert log + sent == log + sent[..n] + sent[n..];
    }
  }

  lemma LogGrows(log: seq<Sent>, sent: seq<Sent>, backlog: seq<Request>, online: seq<Request>)
    requires Requests(sent) == backlog + online
    ensures Requests(log + sent) == Requests(log) + backlog + online
  {
    assert Requests(log + sent) == Requests(log) + Requests(sent);
  }

  /** A complete run without failures delivered every pending row, in order. */
  lemma CompleteRun(before: Table, rows: Table, out: seq<Id>, begun: seq<Id>, sent: seq<Sent>,
                    processed: nat, failed: nat, maxRetries: int, siteId: string)
    requires Run(before, rows, out, begun, sent, processed, failed, maxRetries, siteId)
    requires failed == 0 && WithStatus(rows, Pending) == {}
    ensures AllDelivered(before, out) && SentInOrder(before, out, sent, siteId)
    ensures rows == before - (set id | id in out)
  {
    SuccessfulDrain(before, rows, out, begun, sent, processed, failed, maxRetries, siteId);
    hide SentInOrder, Tried, Refused;
    CompleteMeansAll(before, rows, out);
  }

  lemma OpsLast(sent: seq<Sent>, n: nat, backlog: seq<Request>, ops: seq<Op>, siteId: string)
    requires |backlog| == n && Requests(sent) == backlog + OnlineRequests(ops, siteId)
    ensures n <= |sent| && Requests(sent[n..]) == OnlineRequests(ops, siteId)
  {
    hide OnlineRequest;
    assert Requests(sent[n..]) == Requests(sent)[n..];
  }

  /** What is left of the table are the older rows that were not pending. */
  lemma OnlyRestLeft(base: Table, before: Table, rows: Table, ops: seq<Op>, first: Id, out: seq<Id>, siteId: string)
    requires Queued(base, before, ops, first, siteId) && AllDelivered(before, out)
    requires rows == before - (set id | id in out)
    ensures rows == base - WithStatus(base, Pending)
  {
    hide OfflinePayload;
    forall id
      ensures id in rows <==> id in base && id !in WithStatus(base, Pending)
      ensures id in rows ==> rows[id] == base[id]
    {
      assert id in before && id !in base ==> id in WithStatus(before, Pending);
    }
  }

  lemma UpdatesQueued(base: Table, rows: Table, ops: seq<Op>, first: Id, siteId: string)
    requires Queued(base, rows, ops, first, siteId) && AllUpdates(ops) && OnlyUpdates(base)
    ensures OnlyUpdates(rows)
  {
    forall id | id in rows
      ensures !rows[id].payload.Registration?
    {
      assert id in base || ops[id - first].UpdateNodeState?;
    }
  }

  /** Backlog and operations are valid, and central accepted everything since its log had this length. */
  ghost predicate AllAccepted(base: Table, ops: seq<Op>, p: QueueProcessor, start: nat)
    reads p, p.proxy, p.central
  {
    Deliverable(base, ops, p.proxy.siteId) && AcceptedSince(p.central.log, start)
  }

  ghost predicate NothingPending(p: QueueProcessor)
    reads p, p.queue
  {
    WithStatus(p.queue.rows, Pending) == {}
  }

  /** Operations issued offline behind any backlog, then connectivity back, then one drain that no other task
      disturbs: if central accepts what it is sent and nothing is left pending, central got the backlog and then
      the requests of `IssueOnline`, in the same order, whatever the batch size. */
  method OfflineThenDrain(p: QueueProcessor, ops: seq<Op>, now: int) returns (result: ProcessResult)
    requires p.Valid() && !p.processing && p.running && !p.monitor.isOnline
    modifies p, p.proxy, p.queue, p.central, p.monitor
    ensures old(p.central.log) <= p.central.log
    ensures p.budget == old(p.budget) && AllAccepted(old(p.queue.rows), ops, p, |old(p.central.log)|) ==>
      result.failed == 0
    ensures
      p.budget == old(p.budget) && AllAccepted(old(p.queue.rows), ops, p, |old(p.central.log)|) && NothingPending(p) ==>
      && ValidBacklog(old(p.queue.rows), p.proxy.siteId)
      && SentLikeOnline(old(p.queue.rows), ops, old(p.central.log), p.central.log, p.proxy.siteId)
      && p.queue.rows == old(p.queue.rows) - WithStatus(old(p.queue.rows), Pending)
      && (CachedUpdates(ops, old(p.proxy.cache)) && OnlyUpdates(old(p.queue.rows)) ==>
            Agrees(ops, p.proxy.cache, NodesOf(p.central.log)))
    // With no report or stop during the drain, nothing is left pending.
    ensures p.budget == old(p.budget) && p.reports == old(p.reports) && p.batchSize != 0 ==> NothingPending(p)
  {
    hide SyncQueue.Valid, Run, Receipts, Queued, Agrees, NodesOf, CacheAfterAll, Deliverable, SentLikeOnline, IdsBelow,
      NoneYounger, IssuedWithin, HaveReceipts, OnlyInHand, OnlyUpdates;
    ghost var first, cache, base := p.proxy.nextId, p.proxy.cache, p.queue.rows;
    ghost var enqueued, issuedAt := p.queue.enqueued, p.proxy.issuedAt;
    IssueOffline(p.proxy, ops);
    ReceiptsKept(p.receipts, enqueued, issuedAt, p.central.log, p.queue.enqueued, p.proxy.issuedAt, p.central.log,
                 p.proxy.siteId);
    InHandStill(base, p.queue.rows, ops, first, p.proxy.siteId, p.current);
    p.monitor.UpdateState(true, now);
    ghost var before, log, d, b := p.queue.rows, p.central.log, |p.queue.delivered|, |p.queue.begun|;
    result := p.ProcessQueue();
    ghost var sent := p.central.log[|log|..];
    assert log + sent == p.central.log;
    if p.budget == old(p.budget) && AcceptedSince(p.central.log, |log|) && Deliverable(base, ops, p.proxy.siteId) {
      DrainConverges(base, before, p.queue.rows, p.queue.delivered[d..], p.queue.begun[b..], log, sent,
                     result.processed, result.failed, p.maxRetries, p.proxy.siteId, ops, first, cache);
      if CachedUpdates(ops, cache) && OnlyUpdates(base) {
        UpdatesQueued(base, before, ops, first, p.proxy.siteId);
      }
    }
  }

  lemma InHandStill(base: Table, rows: Table, ops: seq<Op>, first: Id, siteId: string, current: Option<Id>)
    requires Queued(base, rows, ops, first, siteId) && OnlyInHand(base, current)
    ensures OnlyInHand(rows, current)
  {
    hide OfflinePayload;
  }

  ghost predicate AcceptedSince(log: seq<Sent>, start: nat) {
    forall i :: start <= i < |log| ==> Accepted(log[i])
  }
}
