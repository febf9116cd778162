/** The agent's proxy to central (`CentralProxy`): each operation is sent when online, and put on
    the sync queue when offline. */
module CentralProxy {
  import opened Wrappers
  import opened SyncQueue
  import opened Connectivity

  /** What central is asked to do: method, path and body of one HTTP request. */
  datatype Request =
    | Register(fields: map<string, string>)
    | PatchState(nodeId: string, state: string)
    | PostEvent(nodeId: string, event: map<string, string>)

  /** The fields of a JSON answer that the agent looks at; an empty answer is no data. */
  datatype Data = Data(id: Option<string>, state: Option<string>, status: Option<string>, success: Option<bool>)

  datatype Response = Response(code: int, data: Option<Data>)

  datatype Sent = Sent(request: Request, response: Response)

  /** The dict an operation returns. */
  datatype Reply = Reply(status: Option<string>, success: bool, hasId: bool)

  const QUEUED := Reply(Some("queued"), false, false)

  function RegistrationReply(response: Response): Reply {
    if response.code in {200, 201} && response.data.Some? then
      var data := response.data.value;
      Reply(data.status, data.success == None || data.success == Some(true), data.id.Some?)
    else Reply(None, false, false)
  }

  function ReplyOf(request: Request, response: Response): Reply {
    match request
    case Register(_) => RegistrationReply(response)
    case PatchState(_, _) => Reply(None, response.code == 200, false)
    case PostEvent(_, _) => Reply(None, response.code in {200, 201}, false)
  }

  /** When the queue processor takes the operation as done. */
  predicate Accepted(sent: Sent) {
    var reply := ReplyOf(sent.request, sent.response);
    reply.status != Some("queued") && (reply.success || (sent.request.Register? && reply.hasId))
  }

  /** Central: every request it was sent, with its answer, which is arbitrary. */
  class Central {
    var log: seq<Sent>

    constructor ()
      ensures log == []
    {
      log := [];
    }

    method Handle(request: Request) returns (response: Response)
      modifies this
      ensures log == old(log) + [Sent(request, response)]
    {
      response := *;
      log := log + [Sent(request, response)];
    }
  }

  /** The node states central keeps after a log: an accepted state update sets the node's state. */
  function NodesOf(log: seq<Sent>): map<string, string> {
    if log == [] then map[]
    else
      var before, last := NodesOf(log[..|log| - 1]), log[|log| - 1];
      if last.request.PatchState? && Accepted(last) then before[last.request.nodeId := last.request.state] else before
  }

  /** `log[i]` is a state update of the node that central accepted. */
  predicate UpdatesNode(log: seq<Sent>, i: int, nodeId: string) {
    0 <= i < |log| && log[i].request.PatchState? && log[i].request.nodeId == nodeId && Accepted(log[i])
  }

  ghost predicate LastUpdate(log: seq<Sent>, i: int, nodeId: string) {
    UpdatesNode(log, i, nodeId) && forall j :: i < j ==> !UpdatesNode(log, j, nodeId)
  }

  /** Central knows the state of exactly the nodes it accepted an update of: the one of the last such update. */
  lemma {:induction false} LastUpdateWins(log: seq<Sent>, nodeId: string)
    ensures nodeId in NodesOf(log) <==> exists i :: UpdatesNode(log, i, nodeId)
    ensures forall i :: LastUpdate(log, i, nodeId) ==>
      nodeId in NodesOf(log) && NodesOf(log)[nodeId] == log[i].request.state
  {
    if log != [] {
      var k := |log| - 1;
      LastUpdateWins(log[..k], nodeId);
      hide Accepted;
      forall i | i != k
        ensures UpdatesNode(log, i, nodeId) <==> UpdatesNode(log[..k], i, nodeId)
      {
      }
      forall i | LastUpdate(log, i, nodeId)
        ensures nodeId in NodesOf(log) && NodesOf(log)[nodeId] == log[i].request.state
      {
        if i < k {
          assert LastUpdate(log[..k], i, nodeId);
          assert !UpdatesNode(log, k, nodeId);
        }
      }
      assert UpdatesNode(log, k, nodeId) ==> nodeId in NodesOf(log);
    }
  }

  datatype CachedNode = CachedNode(nodeId: Option<string>, state: string)

  type Cache = map<string, CachedNode>

  /** The cache update of `update_node_state`: only a node already cached under that MAC is touched. */
  function CacheAfterUpdate(cache: Cache, nodeId: string, newState: string, mac: Option<string>): Cache {
    if mac.Some? && mac.value != "" && mac.value in cache
    then cache[mac.value := CachedNode(Some(nodeId), newState)] else cache
  }

  function CacheAfterRegistration(cache: Cache, fields: map<string, string>, response: Response): Cache {
    if response.code in {200, 201} && response.data.Some? && "mac_address" in fields then
      var data := response.data.value;
      cache[fields["mac_address"] := CachedNode(data.id, if data.state.Some? then data.state.value else "discovered")]
    else cache
  }

  function WithSite(event: map<string, string>, siteId: string): map<string, string> {
    if "site_id" in event then event else event["site_id" := siteId]
  }

  /** An operation as its caller issues it. */
  datatype Op =
    | RegisterNode(fields: map<string, string>)
    | UpdateNodeState(nodeId: string, newState: string, mac: Option<string>)
    | ReportNodeEvent(nodeId: string, event: map<string, string>)

  /** The request an operation sends when online. */
  function OnlineRequest(op: Op, siteId: string): Request {
    match op
    case RegisterNode(fields) => Register(fields)
    case UpdateNodeState(nodeId, newState, _) => PatchState(nodeId, newState)
    case ReportNodeEvent(nodeId, event) => PostEvent(nodeId, WithSite(event, siteId))
  }

  /** The payload it queues when offline. */
  function OfflinePayload(op: Op, siteId: string): Payload {
    match op
    case RegisterNode(fields) => Registration(fields)
    case UpdateNodeState(nodeId, newState, mac) => StateUpdate(nodeId, newState, mac)
    case ReportNodeEvent(nodeId, event) => Event(nodeId, WithSite(event, siteId))
  }

  /** A registration and a state update are sent and queued with all that their caller gave. */
  lemma OperationCarried(fields: map<string, string>, nodeId: string, newState: string, mac: Option<string>,
                         siteId: string)
    ensures OnlineRequest(RegisterNode(fields), siteId) == Register(fields)
    ensures OfflinePayload(RegisterNode(fields), siteId) == Registration(fields)
    ensures OnlineRequest(UpdateNodeState(nodeId, newState, mac), siteId) == PatchState(nodeId, newState)
    ensures OfflinePayload(UpdateNodeState(nodeId, newState, mac), siteId) == StateUpdate(nodeId, newState, mac)
  {
  }

  /** An event is sent and queued with every entry its caller gave it, and under the agent's site unless the caller
      named another. */
  lemma EventCarriesSite(nodeId: string, event: map<string, string>, siteId: string)
    ensures var full := OnlineRequest(ReportNodeEvent(nodeId, event), siteId).event;
      && full.Keys == event.Keys + {"site_id"}
      && (forall key :: key in event ==> full[key] == event[key])
      && ("site_id" !in event ==> full["site_id"] == siteId)
      && OfflinePayload(ReportNodeEvent(nodeId, event), siteId) == Event(nodeId, full)
      && OnlineRequest(ReportNodeEvent(nodeId, event), siteId) == PostEvent(nodeId, full)
  {
  }

  /** The answers with which the queue processor takes a request as done, for each kind of request. */
  lemma AcceptedIff(request: Request, response: Response)
    ensures request.PatchState? ==> (Accepted(Sent(request, response)) <==> response.code == 200)
    ensures request.PostEvent? ==> (Accepted(Sent(request, response)) <==> response.code == 200 || response.code == 201)
    ensures request.Register? ==>
      (Accepted(Sent(request, response)) <==>
         && (response.code == 200 || response.code == 201) && response.data.Some?
         && response.data.value.status != Some("queued")
         && (response.data.value.success != Some(false) || response.data.value.id.Some?))
  {
    if response.data.Some? && response.data.value.success.Some? {
      var success := response.data.value.success.value;
      assert response.data.value.success == Some(success) && (success == true || success == false);
    }
  }

  /** What a registration puts into the cache: central's id and state for the MAC it registered, and nothing else. */
  lemma RegistrationCached(cache: Cache, fields: map<string, string>, response: Response, mac: string)
    ensures var after := CacheAfterRegistration(cache, fields, response);
      if response.code !in {200, 201} || response.data.None? || "mac_address" !in fields || mac != fields["mac_address"]
      then (mac in after <==> mac in cache) && (mac in cache ==> after[mac] == cache[mac])
      else
        && mac in after && after[mac].nodeId == response.data.value.id
        && (response.data.value.state.Some? ==> after[mac].state == response.data.value.state.value)
        && (response.data.value.state.None? ==> after[mac].state == "discovered")
  {
  }

  /** What a state update does to the cache: a node cached under the MAC given gets the id and the state, and no node
      is added, removed or otherwise changed. */
  lemma UpdateCached(cache: Cache, nodeId: string, newState: string, given: Option<string>, mac: string)
    ensures var after := CacheAfterUpdate(cache, nodeId, newState, given);
      && (mac in after <==> mac in cache)
      && (mac in cache && given == Some(mac) && mac != "" ==> after[mac] == CachedNode(Some(nodeId), newState))
      && (mac in cache && (given != Some(mac) || mac == "") ==> after[mac] == cache[mac])
  {
  }

  ghost predicate IdsBelow(enqueued: map<Id, Payload>, next: Id) {
    forall id :: id in enqueued ==> id < next
  }

  ghost predicate IssuedWithin(issuedAt: map<Id, nat>, length: nat) {
    forall id :: id in issuedAt ==> issuedAt[id] <= length
  }

  ghost predicate NoneYounger(rows: Table, clock: int) {
    forall id :: id in rows ==> rows[id].createdAt <= clock
  }

  lemma EnqueuedFresh(enqueued: map<Id, Payload>, issuedAt: map<Id, nat>, rows: Table, next: Id, clock: int, now: int,
                      length: nat, payload: Payload)
    requires IdsBelow(enqueued, next) && IssuedWithin(issuedAt, length) && NoneYounger(rows, clock) && clock <= now
    ensures next !in enqueued && IdsBelow(enqueued[next := payload], next + 1)
    ensures IssuedWithin(issuedAt[next := length], length)
    ensures NoneYounger(rows[next := Row(payload, now, 0, Pending, None)], now)
  {
  }

  /** Rows that keep their age stay no younger than the clock. */
  lemma AgesKept(rows: Table, rows': Table, clock: int)
    requires NoneYounger(rows, clock)
    requires forall id :: id in rows' ==> id in rows && rows'[id].createdAt == rows[id].createdAt
    ensures NoneYounger(rows', clock)
  {
  }

  lemma IssuedLater(issuedAt: map<Id, nat>, length: nat, longer: nat)
    requires IssuedWithin(issuedAt, length) && length <= longer
    ensures IssuedWithin(issuedAt, longer)
  {
  }

  class CentralProxy {
    const queue: SyncQueue
    const central: Central
    const monitor: ConnectivityMonitor
    const siteId: string
    var cache: Cache
    /** The next fresh id and the last time read; every reading of the clock is later than the one before. */
    var nextId: Id
    var clock: int
    /** How much central had been sent when each id was queued. */
    ghost var issuedAt: map<Id, nat>

    constructor (queue: SyncQueue, central: Central, monitor: ConnectivityMonitor, siteId: string, cache: Cache)
      requires queue.enqueued == map[] && queue.rows == map[]
      ensures this.queue == queue && this.central == central && this.monitor == monitor
      ensures this.siteId == siteId && this.cache == cache && FreshIds()
    {
      this.queue, this.central, this.monitor := queue, central, monitor;
      this.siteId, this.cache, this.nextId, this.clock, this.issuedAt := siteId, cache, 0, 0, map[];
    }

    ghost predicate FreshIds()
      reads this, queue, central
    {
      && IdsBelow(queue.enqueued, nextId)
      && issuedAt.Keys == queue.enqueued.Keys && IssuedWithin(issuedAt, |central.log|)
      && NoneYounger(queue.rows, clock)
    }

    /** The offline branch shared by the three operations: a fresh row at the current time. */
    method EnqueueOffline(payload: Payload) returns (id: Id)
      requires queue.Valid() && FreshIds()
      modifies this`nextId, this`clock, this`issuedAt, queue`rows, queue`enqueued
      ensures queue.Valid() && FreshIds()
      ensures id == old(nextId) && id !in old(queue.enqueued) && id !in old(queue.rows)
      ensures clock > old(clock) && nextId == id + 1
      ensures queue.rows == old(queue.rows)[id := Row(payload, clock, 0, Pending, None)]
      ensures queue.enqueued == old(queue.enqueued)[id := payload]
      ensures issuedAt == old(issuedAt)[id := |central.log|]
    {
      hide IdsBelow, IssuedWithin, NoneYounger, SyncQueue.Valid;
      id := nextId;
      var now: int :| clock + 1 <= now;
      EnqueuedFresh(queue.enqueued, issuedAt, queue.rows, id, clock, now, |central.log|, payload);
      queue.RowsEnqueued();
      clock, nextId, issuedAt := now, nextId + 1, issuedAt[id := |central.log|];
      var _ := queue.Enqueue(id, payload, clock);
    }

    /** `register_node` with its registration dict. */
    method RegisterNode(fields: map<string, string>, offlineSync: bool) returns (reply: Reply)
      requires queue.Valid() && FreshIds()
      modifies this, queue`rows, queue`enqueued, central
      ensures queue.Valid() && FreshIds()
      ensures Issued(Op.RegisterNode(fields), offlineSync, reply)
      ensures monitor.isOnline || offlineSync ==>
        cache == CacheAfterRegistration(old(cache), fields, central.log[|old(central.log)|].response)
      ensures !monitor.isOnline && !offlineSync ==> cache == old(cache)
    {
      hide IdsBelow, IssuedWithin, NoneYounger, SyncQueue.Valid;
      if !monitor.isOnline && !offlineSync {
        var _ := EnqueueOffline(Registration(fields));
        return QUEUED;
      }
      IssuedLater(issuedAt, |central.log|, |central.log| + 1);
      var response := central.Handle(Register(fields));
      cache := CacheAfterRegistration(cache, fields, response);
      reply := RegistrationReply(response);
    }

    /** `update_node_state`. */
    method UpdateNodeState(nodeId: string, newState: string, mac: Option<string>, offlineSync: bool)
      returns (reply: Reply)
      requires queue.Valid() && FreshIds()
      modifies this, queue`rows, queue`enqueued, central
      ensures queue.Valid() && FreshIds()
      ensures Issued(Op.UpdateNodeState(nodeId, newState, mac), offlineSync, reply)
      ensures cache == if (!monitor.isOnline && !offlineSync) || reply.success
        then CacheAfterUpdate(old(cache), nodeId, newState, mac) else old(cache)
    {
      hide IdsBelow, IssuedWithin, NoneYounger, SyncQueue.Valid;
      if !monitor.isOnline && !offlineSync {
        var _ := EnqueueOffline(StateUpdate(nodeId, newState, mac));
        cache := CacheAfterUpdate(cache, nodeId, newState, mac);
        return QUEUED;
      }
      IssuedLater(issuedAt, |central.log|, |central.log| + 1);
      var response := central.Handle(PatchState(nodeId, newState));
      if response.code == 200 {
        cache := CacheAfterUpdate(cache, nodeId, newState, mac);
      }
      reply := Reply(None, response.code == 200, false);
    }

    /** `report_node_event`. */
    method ReportNodeEvent(nodeId: string, event: map<string, string>, offlineSync: bool) returns (reply: Reply)
      requires queue.Valid() && FreshIds()
      modifies this, queue`rows, queue`enqueued, central
      ensures queue.Valid() && FreshIds()
      ensures Issued(Op.ReportNodeEvent(nodeId, event), offlineSync, reply)
      ensures cache == old(cache)
    {
      hide IdsBelow, IssuedWithin, NoneYounger, SyncQueue.Valid;
      var full := WithSite(event, siteId);
      if !monitor.isOnline && !offlineSync {
        var _ := EnqueueOffline(Event(nodeId, full));
        return QUEUED;
      }
      IssuedLater(issuedAt, |central.log|, |central.log| + 1);
      var response := central.Handle(PostEvent(nodeId, full));
      reply := Reply(None, response.code in {200, 201}, false);
    }

    /** What one operation does: offline and not syncing, it queues exactly one fresh row and sends
        nothing; otherwise it sends exactly its online request and leaves the queue alone. */
    twostate predicate Issued(op: Op, offlineSync: bool, reply: Reply)
      reads this, queue, central, monitor
    {
      if !monitor.isOnline && !offlineSync then
        && reply == Reply(Some("queued"), false, false)
        && central.log == old(central.log)
        && old(nextId) !in old(queue.rows) && old(nextId) !in old(queue.enqueued)
        && clock > old(clock) && nextId == old(nextId) + 1
        && queue.rows == old(queue.rows)[old(nextId) := Row(OfflinePayload(op, siteId), clock, 0, Pending, None)]
        && queue.enqueued == old(queue.enqueued)[old(nextId) := OfflinePayload(op, siteId)]
        && issuedAt == old(issuedAt)[old(nextId) := |central.log|]
      else
        var sent := |old(central.log)|;
        && queue.rows == old(queue.rows) && queue.enqueued == old(queue.enqueued)
        && nextId == old(nextId) && clock == old(clock) && issuedAt == old(issuedAt)
        && |central.log| == sent + 1
        && central.log == old(central.log) + [Sent(OnlineRequest(op, siteId), central.log[sent].response)]
        && reply == ReplyOf(OnlineRequest(op, siteId), central.log[sent].response)
    }

    /** One operation issued by its caller. */
    method Issue(op: Op) returns (reply: Reply)
      requires queue.Valid() && FreshIds()
      modifies this, queue`rows, queue`enqueued, central
      ensures queue.Valid() && FreshIds()
      ensures Issued(op, false, reply)
      ensures op.UpdateNodeState? ==> cache == if !monitor.isOnline || reply.success
        then CacheAfterUpdate(old(cache), op.nodeId, op.newState, op.mac) else old(cache)
    {
      hide FreshIds, SyncQueue.Valid;
      match op
      case RegisterNode(fields) => reply := RegisterNode(fields, false);
      case UpdateNodeState(nodeId, newState, mac) => reply := UpdateNodeState(nodeId, newState, mac, false);
      case ReportNodeEvent(nodeId, event) => reply := ReportNodeEvent(nodeId, event, false);
    }
  }
}
