/** Draining the sync queue (`QueueProcessor`). Every `await` of a drain is a call of `Interleave`,
    in which other tasks of the agent run: operations are issued, failed rows are retried or
    cleared, other drains are started, and the connectivity monitor reports. */
module QueueProcessor {
  import opened Wrappers
  import opened SyncQueue
  import opened Connectivity
  import opened CentralProxy

  datatype DrainStatus = Success | Partial | AllFailed | Empty

  datatype ProcessResult = ProcessResult(processed: nat, failed: nat, remaining: nat, status: DrainStatus)

  function StatusOf(processed: nat, failed: nat): DrainStatus {
    if processed == 0 && failed == 0 then Empty
    else if failed == 0 then Success
    else if processed > 0 then Partial
    else AllFailed
  }

  /** The request a handler sends for a queued payload; `None` when it rejects the payload unsent. */
  function QueuedRequest(payload: Payload, siteId: string): Option<Request> {
    match payload
    case Registration(fields) => Some(Register(fields))
    case StateUpdate(nodeId, newState, _) =>
      if nodeId == "" || newState == "" then None else Some(PatchState(nodeId, newState))
    case Event(nodeId, event) => if nodeId == "" then None else Some(PostEvent(nodeId, WithSite(event, siteId)))
    case UnknownType(_) => None
  }

  // ---------------------------------------------------------------- the retry budget

  /** How many more times a pending row with this many attempts behind it may be tried. */
  function TriesLeft(attempts: int, maxRetries: int): nat {
    if attempts <= maxRetries then maxRetries + 1 - attempts else 1
  }

  function RowWeight(row: Row, maxRetries: int): nat {
    if row.status == Pending then TriesLeft(row.attempts, maxRetries) else 0
  }

  /** The tries left in the whole table. */
  ghost function Weight(rows: Table, maxRetries: int): nat {
    if rows.Keys == {} then 0
    else
      var id :| id in rows.Keys;
      RowWeight(rows[id], maxRetries) + Weight(rows - {id}, maxRetries)
  }

  lemma {:induction false} WeightSplit(rows: Table, id: Id, maxRetries: int)
    requires id in rows
    ensures Weight(rows, maxRetries) == RowWeight(rows[id], maxRetries) + Weight(rows - {id}, maxRetries)
    decreases |rows|
  {
    var picked :| picked in rows.Keys
      && Weight(rows, maxRetries) == RowWeight(rows[picked], maxRetries) + Weight(rows - {picked}, maxRetries);
    if picked != id {
      WeightSplit(rows - {picked}, id, maxRetries);
      WeightSplit(rows - {id}, picked, maxRetries);
      assert rows - {picked} - {id} == rows - {id} - {picked};
    }
  }

  // ---------------------------------------------------------------- one attempt

  const MAX_RETRIES_EXCEEDED := "Max retries exceeded"

  /** The row after an attempt of which the snapshot `row` was taken before it began. */
  function AfterFailure(row: Row, maxRetries: int): Row {
    if row.attempts >= maxRetries
    then row.(attempts := row.attempts + 1, status := Failed, lastError := Some(MAX_RETRIES_EXCEEDED))
    else row.(attempts := row.attempts + 1)
  }

  function AfterAttempt(rows: Table, id: Id, success: bool, maxRetries: int): Table
    requires id in rows
  {
    if success then rows - {id} else rows[id := AfterFailure(rows[id], maxRetries)]
  }

  lemma AttemptComposes(rows: Table, id: Id, inHand: Row, success: bool, maxRetries: int)
    requires id in rows
    ensures (if success then rows[id := inHand] - {id}
             else rows[id := inHand][id := AfterFailure(rows[id], maxRetries)])
         == AfterAttempt(rows, id, success, maxRetries)
  {
    assert rows[id := inHand] - {id} == rows - {id};
  }

  /** Every attempt uses up at least one of the tries left. */
  lemma AttemptLowersWeight(rows: Table, id: Id, success: bool, maxRetries: int)
    requires id in rows && rows[id].status == Pending
    ensures Weight(AfterAttempt(rows, id, success, maxRetries), maxRetries) < Weight(rows, maxRetries)
  {
    WeightSplit(rows, id, maxRetries);
    if !success {
      var after := AfterAttempt(rows, id, success, maxRetries);
      WeightSplit(after, id, maxRetries);
      assert after - {id} == rows - {id};
    }
  }

  // ---------------------------------------------------------------- a whole drain, undisturbed

  /** Where an undisturbed drain that found the table `before` stands: `out` is what it delivered, in
      order, and `begun` the attempts it made. Rows not pending at the start are as they were; every
      row that was pending is delivered, still pending, or failed after exhausting its tries. */
  ghost predicate Drained(before: Table, rows: Table, out: seq<Id>, begun: seq<Id>, maxRetries: int) {
    && Accounted(before, rows, out)
    && Tried(before, rows, begun, maxRetries)
  }

  ghost predicate Accounted(before: Table, rows: Table, out: seq<Id>) {
    && (forall id :: id in rows <==> id in before && id !in out)
    && (forall id :: id in out ==> id in before && before[id].status == Pending)
    && (forall i, j :: 0 <= i < j < |out| ==> out[i] != out[j])
    && (forall id :: id in rows && before[id].status != Pending ==> rows[id] == before[id])
  }

  ghost predicate Tried(before: Table, rows: Table, begun: seq<Id>, maxRetries: int) {
    && (forall id :: id in begun ==> id in before && before[id].status == Pending)
    && (forall id :: id in rows && id in before && before[id].status == Pending ==>
          Retried(before[id], rows[id], multiset(begun)[id], maxRetries))
    && (forall id :: id in before && before[id].status == Pending ==>
          multiset(begun)[id] <= TriesLeft(before[id].attempts, maxRetries))
  }

  /** A row tried `tries` times without success. */
  ghost predicate Retried(was: Row, row: Row, tries: nat, maxRetries: int) {
    && row.payload == was.payload && row.createdAt == was.createdAt
    && row.attempts == was.attempts + tries
    && (row.status == Pending || row.status == Failed)
    && (row.status == Pending && tries > 0 ==> row.attempts <= maxRetries)
    && (row.status == Failed ==> tries > 0 && row.attempts > maxRetries)
    && (tries == 0 ==> row == was)
  }

  lemma RetriedStep(was: Row, row: Row, tries: nat, maxRetries: int)
    requires Retried(was, row, tries, maxRetries) && row.status == Pending && was.status == Pending
    ensures Retried(was, AfterFailure(row, maxRetries), tries + 1, maxRetries)
    ensures tries + 1 <= TriesLeft(was.attempts, maxRetries)
  {
  }

  /** A row is given up with the attempt that makes its count exceed the limit by one, never earlier or later. */
  lemma GivenUpIff(was: Row, row: Row, tries: nat, maxRetries: int)
    requires Retried(was, row, tries, maxRetries) && was.status == Pending && was.attempts <= maxRetries
    requires tries <= TriesLeft(was.attempts, maxRetries)
    ensures row.status == Failed <==> row.attempts == maxRetries + 1
    ensures row.status == Failed ==> tries == maxRetries + 1 - was.attempts
    ensures row.status == Pending <==> row.attempts <= maxRetries
  {
  }

  lemma AccountedStep(before: Table, rows: Table, out: seq<Id>, maxRetries: int, id: Id, success: bool)
    requires Accounted(before, rows, out) && id in rows && before[id].status == Pending
    ensures Accounted(before, AfterAttempt(rows, id, success, maxRetries), if success then out + [id] else out)
  {
    hide AfterFailure;
  }

  lemma TriedStep(before: Table, rows: Table, begun: seq<Id>, maxRetries: int, id: Id, success: bool)
    requires Tried(before, rows, begun, maxRetries)
    requires id in rows && id in before && rows[id].status == Pending && before[id].status == Pending
    ensures Tried(before, AfterAttempt(rows, id, success, maxRetries), begun + [id], maxRetries)
  {
    RetriedStep(before[id], rows[id], multiset(begun)[id], maxRetries);
    hide Retried, TriesLeft, AfterFailure;
    assert multiset(begun + [id])[id] == multiset(begun)[id] + 1;
    assert forall other: Id :: other != id ==> multiset(begun + [id])[other] == multiset(begun)[other];
  }

  lemma DrainedStep(before: Table, rows: Table, out: seq<Id>, begun: seq<Id>, maxRetries: int,
                    id: Id, success: bool)
    requires Drained(before, rows, out, begun, maxRetries)
    requires id in rows && rows[id].status == Pending
    ensures Drained(before, AfterAttempt(rows, id, success, maxRetries),
                    if success then out + [id] else out, begun + [id], maxRetries)
  {
    hide Tried, AfterAttempt;
    assert before[id].status == Pending;
    AccountedStep(before, rows, out, maxRetries, id, success);
    TriedStep(before, rows, begun, maxRetries, id, success);
  }

  /** The delivered ids are the oldest pending rows of the table, oldest first. */
  ghost predicate OldestFirst(before: Table, out: seq<Id>) {
    && (forall id :: id in out ==> id in before)
    && (forall i, j :: 0 <= i < j < |out| ==> before[out[i]].createdAt <= before[out[j]].createdAt)
    && (forall id, i :: id in before && before[id].status == Pending && id !in out && 0 <= i < |out| ==>
          before[out[i]].createdAt <= before[id].createdAt)
  }

  /** `sent` is the accepted request of each delivered row, in order. */
  ghost predicate SentInOrder(before: Table, out: seq<Id>, sent: seq<Sent>, siteId: string) {
    && |sent| == |out|
    && forall i :: 0 <= i < |out| ==>
         && out[i] in before
         && Some(sent[i].request) == QueuedRequest(before[out[i]].payload, siteId)
         && Accepted(sent[i])
  }

  /** Some attempt was refused: its payload was rejected unsent, or central did not accept its request. */
  ghost predicate Refused(before: Table, begun: seq<Id>, sent: seq<Sent>, siteId: string) {
    || (exists id :: id in begun && id in before && QueuedRequest(before[id].payload, siteId).None?)
    || (exists i :: 0 <= i < |sent| && !Accepted(sent[i]))
  }

  /** Where an undisturbed drain stands, with its counters. */
  ghost predicate Run(before: Table, rows: Table, out: seq<Id>, begun: seq<Id>, sent: seq<Sent>,
                      processed: nat, failed: nat, maxRetries: int, siteId: string) {
    && Drained(before, rows, out, begun, maxRetries)
    && processed == |out|
    && |begun| == processed + failed
    && (failed == 0 ==> begun == out && OldestFirst(before, out) && SentInOrder(before, out, sent, siteId))
    && (failed > 0 ==> Refused(before, begun, sent, siteId))
  }

  /** The items of a batch from the `k`th on are still pending rows, oldest first. */
  ghost predicate Batch(rows: Table, items: seq<Item>, k: nat) {
    && (forall j :: k <= j < |items| ==>
          items[j].id in rows && rows[items[j].id] == items[j].row && items[j].row.status == Pending)
    && (forall i, j :: 0 <= i < j < |items| ==>
          items[i].id != items[j].id && items[i].row.createdAt <= items[j].row.createdAt)
  }

  lemma PeekedBatch(peeked: Table, rows: Table, limit: int, items: seq<Item>)
    requires IsPeek(peeked, limit, items) && WorkKept(peeked, rows)
    ensures Batch(rows, items, 0)
    ensures rows == peeked ==> BatchOldest(rows, items, 0)
    ensures items == [] && limit != 0 ==> WithStatus(peeked, Pending) == {}
  {
    assert Ids(items)[0..] == Ids(items);
    forall id, j | id in peeked && peeked[id].status == Pending && 0 <= j < |items| && id !in Ids(items)
      ensures items[j].row.createdAt <= peeked[id].createdAt
    {
      assert id in WithStatus(peeked, Pending);
    }
  }

  lemma RunInitial(before: Table, maxRetries: int, siteId: string)
    ensures Run(before, before, [], [], [], 0, 0, maxRetries, siteId)
  {
    var none: seq<Id> := [];
    assert forall id :: multiset(none)[id] == 0;
  }

  /** Handling these rows cannot touch the agent's cache. */
  ghost predicate OnlyUpdates(rows: Table) {
    forall id :: id in rows ==> !rows[id].payload.Registration?
  }

  /** The pending rows outside the rest of a batch are no older than its items. */
  ghost predicate BatchOldest(rows: Table, items: seq<Item>, k: nat) {
    forall id, j :: id in rows && rows[id].status == Pending && k <= j < |items| && id !in Ids(items)[k..] ==>
      items[j].row.createdAt <= rows[id].createdAt
  }

  lemma OldestFirstStep(before: Table, out: seq<Id>, id: Id)
    requires OldestFirst(before, out) && id in before && before[id].status == Pending && id !in out
    requires forall other :: other in before && before[other].status == Pending && other !in out ==>
      before[id].createdAt <= before[other].createdAt
    ensures OldestFirst(before, out + [id])
  {
  }

  /** While nothing has failed, the rows not yet delivered are exactly as they were. */
  lemma UntriedRow(before: Table, rows: Table, out: seq<Id>, maxRetries: int, id: Id)
    requires Drained(before, rows, out, out, maxRetries) && id in before && id !in out
    ensures id in rows && rows[id] == before[id]
  {
    if before[id].status == Pending {
      assert multiset(out)[id] == 0;
      assert Retried(before[id], rows[id], multiset(out)[id], maxRetries);
    }
  }

  lemma DeliveredStep(before: Table, rows: Table, out: seq<Id>, sent: seq<Sent>, sent': seq<Sent>,
                      maxRetries: int, siteId: string, id: Id)
    requires Drained(before, rows, out, out, maxRetries)
    requires OldestFirst(before, out) && SentInOrder(before, out, sent, siteId)
    requires id in rows && rows[id].status == Pending && AttemptSent(sent, sent', rows[id].payload, siteId, true)
    requires forall other :: other in rows && rows[other].status == Pending ==>
      rows[id].createdAt <= rows[other].createdAt
    ensures OldestFirst(before, out + [id]) && SentInOrder(before, out + [id], sent', siteId)
  {
    UntriedRow(before, rows, out, maxRetries, id);
    forall other | other in before && before[other].status == Pending && other !in out
      ensures before[id].createdAt <= before[other].createdAt
    {
      UntriedRow(before, rows, out, maxRetries, other);
    }
    OldestFirstStep(before, out, id);
  }

  lemma RefusedStep(before: Table, begun: seq<Id>, sent: seq<Sent>, sent': seq<Sent>, payload: Payload,
                    siteId: string, id: Id)
    requires id in before && before[id].payload == payload && AttemptSent(sent, sent', payload, siteId, false)
    ensures Refused(before, begun + [id], sent', siteId)
  {
    assert (begun + [id])[|begun|] == id;
    if QueuedRequest(payload, siteId).Some? {
      assert !Accepted(sent'[|sent|]);
    }
  }

  lemma BatchHead(rows: Table, items: seq<Item>, k: nat)
    requires k < |items| && Batch(rows, items, k) && BatchOldest(rows, items, k)
    ensures forall other :: other in rows && rows[other].status == Pending ==>
      items[k].row.createdAt <= rows[other].createdAt
    ensures BatchOldest(rows - {items[k].id}, items, k + 1)
  {
    assert Ids(items)[k..] == [items[k].id] + Ids(items)[k + 1..];
    forall other | other in rows && rows[other].status == Pending && other in Ids(items)[k..]
      ensures items[k].row.createdAt <= rows[other].createdAt
    {
      var j :| k <= j < |items| && Ids(items)[j] == other;
      assert items[j].id == other;
    }
  }

  lemma SuffixSent(before: seq<Sent>, after: seq<Sent>, payload: Payload, siteId: string, success: bool, l: nat)
    requires AttemptSent(before, after, payload, siteId, success) && l <= |before|
    ensures l <= |after| && AttemptSent(before[l..], after[l..], payload, siteId, success)
  {
    if after != before {
      assert after[l..] == before[l..] + [after[|before|]];
    }
  }

  lemma RunStep(before: Table, rows: Table, out: seq<Id>, begun: seq<Id>, sent: seq<Sent>, sent': seq<Sent>,
                processed: nat, failed: nat, maxRetries: int, siteId: string, id: Id, success: bool)
    requires Run(before, rows, out, begun, sent, processed, failed, maxRetries, siteId)
    requires id in rows && rows[id].status == Pending
    requires AttemptSent(sent, sent', rows[id].payload, siteId, success)
    requires failed == 0 ==>
      forall other :: other in rows && rows[other].status == Pending ==> rows[id].createdAt <= rows[other].createdAt
    ensures Run(before, AfterAttempt(rows, id, success, maxRetries), if success then out + [id] else out, begun + [id],
                sent', if success then processed + 1 else processed, if success then failed else failed + 1,
                maxRetries, siteId)
  {
    DrainedStep(before, rows, out, begun, maxRetries, id, success);
    assert before[id].payload == rows[id].payload by {
      assert Retried(before[id], rows[id], multiset(begun)[id], maxRetries);
    }
    if !success {
      RefusedStep(before, begun, sent, sent', rows[id].payload, siteId, id);
    } else if failed == 0 {
      DeliveredStep(before, rows, out, sent, sent', maxRetries, siteId, id);
    } else {
      RefusedGrows(before, begun, sent, begun + [id], sent', siteId);
    }
  }

  lemma BatchStep(before: Table, rows: Table, items: seq<Item>, k: nat, delivered: seq<Id>, begun: seq<Id>,
                  log: seq<Sent>, log': seq<Sent>, d: nat, b: nat, l: nat,
                  processed: nat, failed: nat, maxRetries: int, siteId: string, success: bool)
    requires k < |items| && Batch(rows, items, k) && (failed == 0 ==> BatchOldest(rows, items, k))
    requires d <= |delivered| && b <= |begun| && l <= |log|
    requires Run(before, rows, delivered[d..], begun[b..], log[l..], processed, failed, maxRetries, siteId)
    requires AttemptSent(log, log', items[k].row.payload, siteId, success)
    ensures l <= |log'|
    ensures var id := items[k].id;
      Run(before, AfterAttempt(rows, id, success, maxRetries),
          (delivered + if success then [id] else [])[d..], (begun + [id])[b..], log'[l..],
          if success then processed + 1 else processed, if success then failed else failed + 1, maxRetries, siteId)
    ensures success && failed == 0 ==> BatchOldest(AfterAttempt(rows, items[k].id, success, maxRetries), items, k + 1)
  {
    var id := items[k].id;
    assert id in rows && rows[id] == items[k].row && rows[id].status == Pending;
    if failed == 0 {
      BatchHead(rows, items, k);
    }
    hide Batch, BatchOldest, Run, AttemptSent, AfterFailure, Ids;
    SuffixAppend(delivered, if success then [id] else [], d);
    SuffixAppend(begun, [id], b);
    assert delivered[d..] + [] == delivered[d..];
    SuffixSent(log, log', items[k].row.payload, siteId, success, l);
    RunStep(before, rows, delivered[d..], begun[b..], log[l..], log'[l..], processed, failed, maxRetries, siteId, id,
            success);
  }

  lemma SuffixAppend(ids: seq<Id>, more: seq<Id>, d: nat)
    requires d <= |ids|
    ensures (ids + more)[d..] == ids[d..] + more
  {
  }

  lemma RowsComeFrom(before: Table, rows: Table, out: seq<Id>, begun: seq<Id>, maxRetries: int, id: Id)
    requires Drained(before, rows, out, begun, maxRetries) && id in rows && rows[id].status == Pending
    ensures id in before && rows[id].payload == before[id].payload
  {
    if before[id].status == Pending {
      assert Retried(before[id], rows[id], multiset(begun)[id], maxRetries);
    }
  }

  lemma RefusedGrows(before: Table, begun: seq<Id>, sent: seq<Sent>, begun': seq<Id>, sent': seq<Sent>, siteId: string)
    requires Refused(before, begun, sent, siteId) && begun <= begun' && sent <= sent'
    ensures Refused(before, begun', sent', siteId)
  {
    if i :| 0 <= i < |sent| && !Accepted(sent[i]) {
      assert !Accepted(sent'[i]);
    } else {
      var id :| id in begun && id in before && QueuedRequest(before[id].payload, siteId).None?;
      assert id in begun';
    }
  }

  /** The rows a drain works with, pending or in hand, are as they were. */
  ghost predicate WorkKept(before: Table, after: Table) {
    forall id :: id in before && before[id].status != Failed ==> id in after && after[id] == before[id]
  }

  /** The pending rows other than `id` are as they were. */
  ghost predicate OthersKept(before: Table, after: Table, id: Id) {
    forall other :: other in before && before[other].status == Pending && other != id ==>
      other in after && after[other] == before[other]
  }

  /** What one attempt adds to central's log: the payload's request, if it has one. */
  ghost predicate AttemptSent(before: seq<Sent>, after: seq<Sent>, payload: Payload, siteId: string, success: bool) {
    var request := QueuedRequest(payload, siteId);
    if request.None? then
      !success && after == before
    else
      && |after| == |before| + 1
      && after == before + [after[|before|]]
      && after[|before|].request == request.value
      && success == Accepted(after[|before|])
  }

  /** The `index`th request central was sent is the one of the payload with which `id` was enqueued, was sent
      after that, and was accepted. */
  ghost predicate Receipted(enqueued: map<Id, Payload>, issuedAt: map<Id, nat>, log: seq<Sent>, siteId: string,
                            id: Id, index: nat)
  {
    && id in enqueued && id in issuedAt && issuedAt[id] <= index < |log| && Accepted(log[index])
    && QueuedRequest(enqueued[id], siteId) == Some(log[index].request)
  }

  /** Every receipt is good, and no request serves two ids. */
  ghost predicate Receipts(receipts: map<Id, nat>, enqueued: map<Id, Payload>, issuedAt: map<Id, nat>, log: seq<Sent>,
                           siteId: string)
  {
    && (forall id :: id in receipts ==> Receipted(enqueued, issuedAt, log, siteId, id, receipts[id]))
    && forall id, other :: id in receipts && other in receipts && id != other ==> receipts[id] != receipts[other]
  }

  lemma ReceiptsKept(receipts: map<Id, nat>, enqueued: map<Id, Payload>, issuedAt: map<Id, nat>, log: seq<Sent>,
                     enqueued': map<Id, Payload>, issuedAt': map<Id, nat>, log': seq<Sent>, siteId: string)
    requires Receipts(receipts, enqueued, issuedAt, log, siteId) && log <= log'
    requires forall id :: id in enqueued ==> id in enqueued' && enqueued'[id] == enqueued[id]
    requires forall id :: id in issuedAt ==> id in issuedAt' && issuedAt'[id] == issuedAt[id]
    ensures Receipts(receipts, enqueued', issuedAt', log', siteId)
  {
    hide QueuedRequest, Accepted;
    forall id | id in receipts
      ensures Receipted(enqueued', issuedAt', log', siteId, id, receipts[id])
    {
      assert Receipted(enqueued, issuedAt, log, siteId, id, receipts[id]);
    }
  }

  lemma ReceiptAdded(receipts: map<Id, nat>, enqueued: map<Id, Payload>, issuedAt: map<Id, nat>, log: seq<Sent>,
                     log': seq<Sent>, siteId: string, id: Id)
    requires Receipts(receipts, enqueued, issuedAt, log, siteId)
    requires id in enqueued && id in issuedAt && issuedAt[id] <= |log|
    requires AttemptSent(log, log', enqueued[id], siteId, true)
    ensures Receipts(receipts[id := |log|], enqueued, issuedAt, log', siteId)
  {
    ReceiptsKept(receipts, enqueued, issuedAt, log, enqueued, issuedAt, log', siteId);
    hide QueuedRequest, Accepted;
    assert forall other :: other in receipts ==> Receipted(enqueued, issuedAt, log, siteId, other, receipts[other]);
  }

  ghost predicate HaveReceipts(delivered: seq<Id>, receipts: map<Id, nat>) {
    forall id :: id in delivered ==> id in receipts
  }

  /** The only row that may be processing is the one in hand. */
  ghost predicate OnlyInHand(rows: Table, current: Option<Id>) {
    forall id :: id in rows && rows[id].status == Processing ==> current == Some(id)
  }

  lemma Delivered(delivered: seq<Id>, receipts: map<Id, nat>, id: Id)
    requires HaveReceipts(delivered, receipts)
    ensures id in receipts ==> HaveReceipts(delivered + [id], receipts)
  {
  }

  lemma Claimed(rows: Table, id: Id, row: Row)
    requires OnlyInHand(rows, None)
    ensures OnlyInHand(rows[id := row], Some(id))
  {
  }

  /** Retrying or clearing the failed rows touches no other. */
  lemma OnlyFailedTouched(rows: Table, rows': Table, current: Option<Id>)
    requires OnlyInHand(rows, current)
    requires forall id :: id in rows && rows[id].status != Failed ==> id in rows' && rows'[id] == rows[id]
    requires forall id :: id in rows' ==> id in rows
    requires forall id :: id in rows' && rows[id].status == Failed ==> rows'[id].status == Pending
    ensures OnlyInHand(rows', current) && WorkKept(rows, rows')
  {
  }

  lemma Released(rows: Table, id: Id, row: Row)
    requires OnlyInHand(rows, Some(id)) && row.status != Processing
    ensures OnlyInHand(rows[id := row], None) && OnlyInHand(rows - {id}, None)
  {
  }

  class QueueProcessor {
    const queue: SyncQueue
    const central: Central
    const monitor: ConnectivityMonitor
    const proxy: CentralProxy
    const batchSize: int
    const maxRetries: int
    var running: bool
    var processing: bool
    /** How many steps other tasks will still take, and how many connectivity reports or stops are
        still to come: any numbers, but finite. */
    var budget: nat
    var reports: nat
    /** The row the active drain is handling, and for each id sent successfully the place in central's log
        of the accepted request that was sent for it. */
    ghost var current: Option<Id>
    ghost var receipts: map<Id, nat>

    ghost predicate Valid()
      reads this, queue, proxy, central
    {
      && proxy.queue == queue && proxy.central == central && proxy.monitor == monitor
      && queue.Valid() && proxy.FreshIds()
      && HaveReceipts(queue.delivered, receipts)
      && Receipts(receipts, queue.enqueued, proxy.issuedAt, central.log, proxy.siteId)
      && OnlyInHand(queue.rows, current)
      && (!processing ==> current == None)
    }

    constructor (proxy: CentralProxy, batchSize: int, maxRetries: int, budget: nat, reports: nat)
      requires proxy.queue.Valid() && proxy.FreshIds() && proxy.queue.rows == map[] && proxy.queue.delivered == []
      ensures Valid() && !processing && running && this.budget == budget && this.reports == reports
      ensures this.proxy == proxy && this.batchSize == batchSize && this.maxRetries == maxRetries
      ensures queue == proxy.queue && central == proxy.central && monitor == proxy.monitor
    {
      this.queue, this.central, this.monitor, this.proxy := proxy.queue, proxy.central, proxy.monitor, proxy;
      this.batchSize, this.maxRetries, this.budget, this.reports := batchSize, maxRetries, budget, reports;
      running, processing, current, receipts := true, false, None, map[];
    }

    /** Without a report the drain stays as allowed to go on as it was. */
    predicate Steady(was: nat, ran: bool, online: bool)
      reads this, monitor
    {
      reports <= was && (reports == was ==> running == ran && monitor.isOnline == online)
    }

    lemma PayloadKept(id: Id)
      requires Valid() && id in queue.rows
      ensures id in queue.enqueued && queue.enqueued[id] == queue.rows[id].payload
    {
    }

    lemma IdsQueued()
      requires Valid()
      ensures proxy.issuedAt.Keys == queue.enqueued.Keys
      ensures forall id :: id in proxy.issuedAt ==> proxy.issuedAt[id] <= |central.log|
    {
    }

    /** Nothing that a drain keeps has changed. */
    twostate predicate Untouched()
      reads this, queue, central, proxy
    {
      && queue.rows == old(queue.rows) && queue.enqueued == old(queue.enqueued)
      && queue.delivered == old(queue.delivered) && queue.cleared == old(queue.cleared)
      && queue.begun == old(queue.begun)
      && central.log == old(central.log)
      && proxy.cache == old(proxy.cache) && receipts == old(receipts)
    }

    /** Connectivity reports and a possible stop of the processor: they touch nothing else. */
    method Reports()
      modifies this`running, this`reports, monitor
      ensures reports <= old(reports)
      ensures reports == old(reports) ==> running == old(running) && monitor.isOnline == old(monitor.isOnline)
      decreases reports
    {
      if * {
        if reports > 0 {
          reports := reports - 1;
          var reachable: bool, now: int := *, *;
          monitor.UpdateState(reachable, now);
          running := *;
          Reports();
        }
      }
    }

    /** Another task issues an operation. */
    method OtherOperation()
      requires Valid() && processing
      modifies queue`rows, queue`enqueued, central, proxy
      ensures Valid() && WorkKept(old(queue.rows), queue.rows) && old(central.log) <= central.log
    {
      hide SyncQueue.Valid, CentralProxy.FreshIds, Receipts;
      var op: Op := *;
      ghost var enqueued, issuedAt, log := queue.enqueued, proxy.issuedAt, central.log;
      IdsQueued();
      var _ := proxy.Issue(op);
      ReceiptsKept(receipts, enqueued, issuedAt, log, queue.enqueued, proxy.issuedAt, central.log, proxy.siteId);
    }

    /** Another task retries or clears the failed rows. */
    method OtherMaintenance()
      requires Valid() && processing
      modifies queue`rows, queue`cleared
      ensures Valid() && WorkKept(old(queue.rows), queue.rows)
    {
      hide SyncQueue.Valid, Receipts, NoneYounger, IdsBelow, IssuedWithin, HaveReceipts, OnlyInHand, WorkKept;
      ghost var rows := queue.rows;
      if * {
        var _ := queue.RetryFailed();
      } else {
        var _ := queue.ClearFailed();
      }
      OnlyFailedTouched(rows, queue.rows, current);
      AgesKept(rows, queue.rows, proxy.clock);
    }

    /** One step of another task. */
    method OtherTask()
      requires Valid() && processing && budget > 0
      modifies this, queue, central, monitor, proxy
      ensures Valid() && processing && WorkKept(old(queue.rows), queue.rows)
      ensures budget < old(budget) && current == old(current) && receipts == old(receipts)
      ensures old(central.log) <= central.log
      ensures Steady(old(reports), old(running), old(monitor.isOnline))
      ensures queue.delivered == old(queue.delivered) && queue.begun == old(queue.begun)
      decreases budget, 0
    {
      hide SyncQueue.Valid;
      budget := budget - 1;
      var choice: int := *;
      if choice == 0 {
        OtherOperation();
      } else if choice == 1 {
        OtherMaintenance();
      } else {
        var result := ProcessQueue();
        assert result.status == Empty;
      }
    }

    /** Other tasks during one `await` of the active drain. */
    method Interleave()
      requires Valid() && processing
      modifies this, queue, central, monitor, proxy
      ensures Valid() && processing && WorkKept(old(queue.rows), queue.rows)
      ensures Steady(old(reports), old(running), old(monitor.isOnline))
      ensures old(central.log) <= central.log
      ensures budget <= old(budget) && current == old(current) && receipts == old(receipts)
      ensures budget == old(budget) ==> Untouched()
      ensures queue.delivered == old(queue.delivered) && queue.begun == old(queue.begun)
      decreases budget, 1
    {
      Reports();
      if * {
        if budget > 0 {
          OtherTask();
          Interleave();
        }
      }
    }

    /** `_process_registration`, `_process_state_update` and `_process_event` behind their dispatch. */
    method Dispatch(payload: Payload) returns (success: bool)
      requires proxy.queue == queue && proxy.central == central && proxy.monitor == monitor
      requires queue.Valid() && proxy.FreshIds()
      modifies queue`rows, queue`enqueued, central, proxy
      ensures queue.Valid() && proxy.FreshIds()
      ensures queue.rows == old(queue.rows) && queue.enqueued == old(queue.enqueued)
      ensures proxy.issuedAt == old(proxy.issuedAt)
      ensures AttemptSent(old(central.log), central.log, payload, proxy.siteId, success)
      ensures !payload.Registration? ==> proxy.cache == old(proxy.cache)
    {
      hide SyncQueue.Valid, CentralProxy.FreshIds;
      match payload {
        case Registration(fields) =>
          var reply := proxy.RegisterNode(fields, true);
          success := reply.status != Some("queued") && (reply.success || reply.hasId);
        case StateUpdate(nodeId, newState, _) =>
          if nodeId == "" || newState == "" {
            success := false;
          } else {
            var reply := proxy.UpdateNodeState(nodeId, newState, None, true);
            success := reply.status != Some("queued") && reply.success;
          }
        case Event(nodeId, event) =>
          if nodeId == "" {
            success := false;
          } else {
            var reply := proxy.ReportNodeEvent(nodeId, event, true);
            success := reply.status != Some("queued") && reply.success;
          }
        case UnknownType(_) =>
          success := false;
      }
    }

    /** The handling of the row in hand, with its receipt. */
    method Send(payload: Payload) returns (success: bool)
      requires Valid() && processing && current.Some?
      requires current.value in queue.enqueued && queue.enqueued[current.value] == payload
      modifies queue`rows, queue`enqueued, central, proxy, this`receipts
      ensures Valid()
      ensures queue.rows == old(queue.rows) && queue.enqueued == old(queue.enqueued)
      ensures receipts == if success then old(receipts)[current.value := |old(central.log)|] else old(receipts)
      ensures success ==> |old(central.log)| < |central.log|
      ensures AttemptSent(old(central.log), central.log, payload, proxy.siteId, success)
      ensures old(central.log) <= central.log
      ensures !payload.Registration? ==> proxy.cache == old(proxy.cache)
    {
      hide SyncQueue.Valid, CentralProxy.FreshIds, QueuedRequest, Accepted, Receipts;
      ghost var log := central.log;
      IdsQueued();
      success := Dispatch(payload);
      if success {
        ReceiptAdded(receipts, queue.enqueued, proxy.issuedAt, log, central.log, proxy.siteId, current.value);
        receipts := receipts[current.value := |log|];
      } else {
        ReceiptsKept(receipts, queue.enqueued, proxy.issuedAt, log, queue.enqueued, proxy.issuedAt, central.log,
                     proxy.siteId);
      }
    }

    /** The table operation that begins an attempt. */
    method Claim(item: Item)
      requires Valid() && processing && current == None
      requires item.id in queue.rows && queue.rows[item.id] == item.row && item.row.status == Pending
      modifies this`current, queue
      ensures Valid() && current == Some(item.id)
      ensures queue.rows
        == old(queue.rows)[item.id := item.row.(status := Processing, attempts := item.row.attempts + 1)]
      ensures queue.begun == old(queue.begun) + [item.id] && queue.delivered == old(queue.delivered)
    {
      hide SyncQueue.Valid, Receipts, NoneYounger, IdsBelow, IssuedWithin, HaveReceipts, OnlyInHand;
      var claimed := item.row.(status := Processing, attempts := item.row.attempts + 1);
      Claimed(queue.rows, item.id, claimed);
      AgesKept(queue.rows, queue.rows[item.id := claimed], proxy.clock);
      var _ := queue.MarkProcessing(item.id);
      current := Some(item.id);
    }

    /** The first step of `_process_item`. */
    method Begin(item: Item)
      requires Valid() && processing && current == None
      requires item.id in queue.rows && queue.rows[item.id] == item.row && item.row.status == Pending
      modifies this, queue, central, monitor, proxy
      ensures Valid() && processing && current == Some(item.id) && receipts == old(receipts)
      ensures Steady(old(reports), old(running), old(monitor.isOnline))
      ensures budget <= old(budget) && old(central.log) <= central.log
      ensures item.id in queue.rows && item.id in queue.enqueued && queue.enqueued[item.id] == item.row.payload
      ensures queue.rows[item.id] == item.row.(status := Processing, attempts := item.row.attempts + 1)
      ensures OthersKept(old(queue.rows), queue.rows, item.id)
      ensures queue.begun == old(queue.begun) + [item.id] && queue.delivered == old(queue.delivered)
      ensures budget == old(budget) ==>
        && queue.rows == old(queue.rows)[item.id := item.row.(status := Processing, attempts := item.row.attempts + 1)]
        && central.log == old(central.log) && proxy.cache == old(proxy.cache)
      decreases budget, 2
    {
      hide Valid, SyncQueue.Valid, Receipts, CentralProxy.FreshIds;
      Interleave();
      Claim(item);
      Interleave();
      PayloadKept(item.id);
    }

    /** The table operation that ends an attempt; `item` is the snapshot taken before it began. */
    method Settle(item: Item, success: bool)
      requires Valid() && processing && current == Some(item.id)
      requires item.id in queue.rows && item.row.status == Pending && (success ==> item.id in receipts)
      requires queue.rows[item.id] == item.row.(status := Processing, attempts := item.row.attempts + 1)
      modifies this`current, queue
      ensures Valid() && current == None
      ensures queue.begun == old(queue.begun) && queue.cleared == old(queue.cleared)
      ensures queue.enqueued == old(queue.enqueued)
      ensures queue.delivered == old(queue.delivered) + if success then [item.id] else []
      ensures queue.rows == if success then old(queue.rows) - {item.id}
        else old(queue.rows)[item.id := AfterFailure(item.row, maxRetries)]
    {
      hide SyncQueue.Valid, Receipts, NoneYounger, IdsBelow, IssuedWithin, HaveReceipts, OnlyInHand;
      var after := AfterFailure(item.row, maxRetries);
      Released(queue.rows, item.id, after);
      AgesKept(queue.rows, queue.rows - {item.id}, proxy.clock);
      AgesKept(queue.rows, queue.rows[item.id := after], proxy.clock);
      Delivered(queue.delivered, receipts, item.id);
      if success {
        var _ := queue.Dequeue(item.id);
      } else if item.row.attempts >= maxRetries {
        var _ := queue.MarkFailed(item.id, MAX_RETRIES_EXCEEDED);
      } else {
        var _ := queue.MarkPending(item.id);
      }
      current := None;
    }

    /** The last step of `_process_item`. */
    method Finish(item: Item, success: bool)
      requires Valid() && processing && current == Some(item.id)
      requires item.id in queue.rows && item.row.status == Pending && (success ==> item.id in receipts)
      requires queue.rows[item.id] == item.row.(status := Processing, attempts := item.row.attempts + 1)
      modifies this, queue, central, monitor, proxy
      ensures Valid() && processing && current == None && receipts == old(receipts)
      ensures Steady(old(reports), old(running), old(monitor.isOnline))
      ensures budget <= old(budget) && old(central.log) <= central.log
      ensures OthersKept(old(queue.rows), queue.rows, item.id)
      ensures queue.begun == old(queue.begun)
      ensures queue.delivered == old(queue.delivered) + if success then [item.id] else []
      ensures budget == old(budget) ==>
        && queue.rows == (if success then old(queue.rows) - {item.id}
             else old(queue.rows)[item.id := AfterFailure(item.row, maxRetries)])
        && central.log == old(central.log) && proxy.cache == old(proxy.cache)
      decreases budget, 2
    {
      hide Valid, SyncQueue.Valid, CentralProxy.FreshIds, Receipts;
      Interleave();
      Settle(item, success);
      Interleave();
    }

    /** `_process_item`. */
    method ProcessItem(item: Item) returns (success: bool)
      requires Valid() && processing && current == None
      requires item.id in queue.rows && queue.rows[item.id] == item.row && item.row.status == Pending
      modifies this, queue, central, monitor, proxy
      ensures Valid() && processing && current == None
      ensures Steady(old(reports), old(running), old(monitor.isOnline))
      ensures budget <= old(budget) && old(central.log) <= central.log
      ensures OthersKept(old(queue.rows), queue.rows, item.id)
      ensures queue.begun == old(queue.begun) + [item.id]
      ensures queue.delivered == old(queue.delivered) + if success then [item.id] else []
      // The row is deleted only after a send of its own request, made in this attempt and accepted.
      ensures success ==> item.id in receipts && |old(central.log)| <= receipts[item.id]
      ensures receipts == if success then old(receipts)[item.id := receipts[item.id]] else old(receipts)
      ensures budget == old(budget) ==>
        && queue.rows == AfterAttempt(old(queue.rows), item.id, success, maxRetries)
        && AttemptSent(old(central.log), central.log, item.row.payload, proxy.siteId, success)
        && (!item.row.payload.Registration? ==> proxy.cache == old(proxy.cache))
      decreases budget, 3
    {
      hide Valid, SyncQueue.Valid, CentralProxy.FreshIds, Receipts;
      Begin(item);
      ghost var inHand := queue.rows;
      success := Send(item.row.payload);
      Finish(item, success);
      if budget == old(budget) {
        AttemptComposes(old(queue.rows), item.id, inHand[item.id], success, maxRetries);
      }
    }

    /** Every id delivered from the `d`th on was sent, and accepted, as a request of its own from the `l`th on. */
    ghost predicate SentSince(d: nat, l: nat)
      reads this, queue
    {
      forall i :: d <= i < |queue.delivered| ==>
        queue.delivered[i] in receipts && receipts[queue.delivered[i]] >= l
    }

    /** Where a drain stands that found the table `before` and the logs at the given lengths. */
    ghost predicate Standing(before: Table, d: nat, b: nat, l: nat, processed: nat, failed: nat)
      reads this, queue, central, proxy
    {
      && d <= |queue.delivered| && b <= |queue.begun| && l <= |central.log|
      && Run(before, queue.rows, queue.delivered[d..], queue.begun[b..], central.log[l..],
             processed, failed, maxRetries, proxy.siteId)
    }

    lemma StandingSucceeded(before: Table, d: nat, b: nat, l: nat, processed: nat, failed: nat)
      requires Standing(before, d, b, l, processed, failed)
      ensures failed == 0 ==>
        && OldestFirst(before, queue.delivered[d..])
        && SentInOrder(before, queue.delivered[d..], central.log[l..], proxy.siteId)
    {
      hide Drained, OldestFirst, SentInOrder, Refused;
    }

    /** One turn of the `for` loop of `process_queue`. The ghost arguments are the table the drain
        found, where the logs stood then, and whether it was undisturbed so far. */
    method HandleItem(items: seq<Item>, k: nat, ghost processed: nat, ghost failed: nat,
                      ghost before: Table, ghost d: nat, ghost b: nat, ghost l: nat, ghost quiet: bool)
      returns (success: bool)
      requires Valid() && processing && current == None
      requires k < |items| && Batch(queue.rows, items, k)
      requires d <= |queue.delivered| && l <= |central.log| && SentSince(d, l)
      requires quiet ==> Standing(before, d, b, l, processed, failed)
      requires quiet && failed == 0 ==> BatchOldest(queue.rows, items, k)
      modifies this, queue, central, monitor, proxy
      ensures Valid() && processing && current == None
      ensures Steady(old(reports), old(running), old(monitor.isOnline)) && budget <= old(budget)
      ensures old(central.log) <= central.log && SentSince(d, l)
      ensures Batch(queue.rows, items, k + 1)
      ensures queue.begun == old(queue.begun) + [items[k].id]
      ensures queue.delivered == old(queue.delivered) + if success then [items[k].id] else []
      ensures budget == old(budget) ==> Weight(queue.rows, maxRetries) < Weight(old(queue.rows), maxRetries)
      ensures quiet && budget == old(budget) ==>
        Standing(before, d, b, l, if success then processed + 1 else processed, if success then failed else failed + 1)
      ensures quiet && budget == old(budget) && failed == 0 && success ==> BatchOldest(queue.rows, items, k + 1)
      ensures quiet && budget == old(budget) && OnlyUpdates(before) ==> proxy.cache == old(proxy.cache)
      decreases budget, 4
    {
      ghost var rows, log, delivered, begun := queue.rows, central.log, queue.delivered, queue.begun;
      success := ProcessItem(items[k]);
      if budget == old(budget) {
        AttemptLowersWeight(rows, items[k].id, success, maxRetries);
        if quiet {
          BatchStep(before, rows, items, k, delivered, begun, log, central.log, d, b, l,
                    processed, failed, maxRetries, proxy.siteId, success);
          RowsComeFrom(before, rows, delivered[d..], begun[b..], maxRetries, items[k].id);
        }
      }
    }

    /** The `for` loop of `process_queue` over one batch. */
    method ProcessBatch(items: seq<Item>, processed0: nat, failed0: nat,
                        ghost before: Table, ghost d: nat, ghost b: nat, ghost l: nat, ghost quiet: bool)
      returns (processed: nat, failed: nat)
      requires Valid() && processing && current == None
      requires Batch(queue.rows, items, 0) && (quiet ==> BatchOldest(queue.rows, items, 0))
      requires |queue.delivered| == d + processed0 && |queue.begun| == b + processed0 + failed0
      requires l <= |central.log| && SentSince(d, l)
      requires quiet ==> Standing(before, d, b, l, processed0, failed0)
      modifies this, queue, central, monitor, proxy
      ensures Valid() && processing && current == None
      ensures Steady(old(reports), old(running), old(monitor.isOnline)) && budget <= old(budget)
      ensures old(central.log) <= central.log && SentSince(d, l)
      ensures old(queue.delivered) <= queue.delivered && old(queue.begun) <= queue.begun
      ensures |queue.delivered| == d + processed && |queue.begun| == b + processed + failed
      ensures budget == old(budget) ==> Weight(queue.rows, maxRetries) <= Weight(old(queue.rows), maxRetries)
      ensures budget == old(budget) && running && monitor.isOnline && items != [] ==>
        Weight(queue.rows, maxRetries) < Weight(old(queue.rows), maxRetries)
      ensures quiet && budget == old(budget) ==> Standing(before, d, b, l, processed, failed)
      ensures quiet && budget == old(budget) && OnlyUpdates(before) ==> proxy.cache == old(proxy.cache)
      decreases budget, 5
    {
      hide Valid, SyncQueue.Valid, CentralProxy.FreshIds, Receipts, Run, Batch, BatchOldest;
      processed, failed := processed0, failed0;
      for k := 0 to |items|
        invariant Valid() && processing && current == None
        invariant Steady(old(reports), old(running), old(monitor.isOnline)) && budget <= old(budget)
        invariant Batch(queue.rows, items, k)
        invariant old(queue.delivered) <= queue.delivered && old(queue.begun) <= queue.begun
        invariant old(central.log) <= central.log && SentSince(d, l)
        invariant |queue.delivered| == d + processed && |queue.begun| == b + processed + failed
        invariant budget == old(budget) ==>
          Weight(queue.rows, maxRetries) + (if k > 0 then 1 else 0) <= Weight(old(queue.rows), maxRetries)
        invariant quiet && budget == old(budget) ==> Standing(before, d, b, l, processed, failed)
        invariant quiet && budget == old(budget) && failed == 0 ==> BatchOldest(queue.rows, items, k)
        invariant quiet && budget == old(budget) && OnlyUpdates(before) ==> proxy.cache == old(proxy.cache)
      {
        if !running || !monitor.isOnline {
          break;
        }
        var success := HandleItem(items, k, processed, failed, before, d, b, l, quiet && budget == old(budget));
        if success {
          processed := processed + 1;
        } else {
          failed := failed + 1;
        }
      }
    }

    /** The `await self.queue.peek(...)` of `process_queue`. */
    method FetchBatch() returns (items: seq<Item>)
      requires Valid() && processing && current == None
      modifies this, queue, central, monitor, proxy
      ensures Valid() && processing && current == None
      ensures Steady(old(reports), old(running), old(monitor.isOnline)) && budget <= old(budget)
      ensures old(central.log) <= central.log
      ensures budget == old(budget) ==> Untouched()
      ensures queue.delivered == old(queue.delivered) && queue.begun == old(queue.begun) && receipts == old(receipts)
      ensures Batch(queue.rows, items, 0)
      ensures budget == old(budget) ==> BatchOldest(queue.rows, items, 0)
      ensures budget == old(budget) && items == [] && batchSize != 0 ==> WithStatus(queue.rows, Pending) == {}
      decreases budget, 2
    {
      hide Valid, SyncQueue.Valid, CentralProxy.FreshIds, Receipts, IsPeek, Batch, BatchOldest, WithStatus;
      Interleave();
      items := queue.Peek(batchSize);
      ghost var rows := queue.rows;
      Interleave();
      PeekedBatch(rows, queue.rows, batchSize, items);
    }

    /** The `while` loop of `process_queue`. */
    method Drain() returns (processed: nat, failed: nat)
      requires Valid() && processing && current == None
      modifies this, queue, central, monitor, proxy
      ensures Valid() && processing && current == None
      ensures Steady(old(reports), old(running), old(monitor.isOnline)) && budget <= old(budget)
      ensures old(central.log) <= central.log && SentSince(|old(queue.delivered)|, |old(central.log)|)
      ensures old(queue.delivered) <= queue.delivered && old(queue.begun) <= queue.begun
      ensures processed == |queue.delivered| - |old(queue.delivered)|
      ensures processed + failed == |queue.begun| - |old(queue.begun)|
      ensures budget == old(budget) ==>
        Standing(old(queue.rows), |old(queue.delivered)|, |old(queue.begun)|, |old(central.log)|, processed, failed)
      ensures budget == old(budget) && OnlyUpdates(old(queue.rows)) ==> proxy.cache == old(proxy.cache)
      ensures budget == old(budget) && running && monitor.isOnline && batchSize != 0 ==>
        WithStatus(queue.rows, Pending) == {}
      decreases budget, 6
    {
      hide Valid, SyncQueue.Valid, CentralProxy.FreshIds, Receipts, Run, Batch, BatchOldest;
      processed, failed := 0, 0;
      ghost var before, d, b, l := queue.rows, |queue.delivered|, |queue.begun|, |central.log|;
      RunInitial(before, maxRetries, proxy.siteId);
      assert queue.delivered[d..] == [] && queue.begun[b..] == [] && central.log[l..] == [];
      while running && monitor.isOnline
        invariant Valid() && processing && current == None
        invariant Steady(old(reports), old(running), old(monitor.isOnline)) && budget <= old(budget)
        invariant old(queue.delivered) <= queue.delivered && old(queue.begun) <= queue.begun
        invariant old(central.log) <= central.log && SentSince(d, l)
        invariant |queue.delivered| == d + processed && |queue.begun| == b + processed + failed
        invariant budget == old(budget) ==> Standing(before, d, b, l, processed, failed)
        invariant budget == old(budget) && OnlyUpdates(before) ==> proxy.cache == old(proxy.cache)
        decreases budget, Weight(queue.rows, maxRetries), if running && monitor.isOnline then 1 else 0
      {
        var items := FetchBatch();
        if items == [] {
          break;
        }
        processed, failed := ProcessBatch(items, processed, failed, before, d, b, l, budget == old(budget));
      }
    }

    /** The `try` block of `process_queue`, under the `processing` flag. */
    method TryProcess() returns (result: ProcessResult)
      requires Valid() && processing && current == None
      modifies this, queue, central, monitor, proxy
      ensures Valid() && processing && current == None && budget <= old(budget) && old(central.log) <= central.log
      ensures old(queue.delivered) <= queue.delivered && old(queue.begun) <= queue.begun
      ensures result.processed == |queue.delivered| - |old(queue.delivered)|
      ensures result.processed + result.failed == |queue.begun| - |old(queue.begun)|
      ensures result.status == StatusOf(result.processed, result.failed)
      ensures SentSince(|old(queue.delivered)|, |old(central.log)|)
      ensures budget == old(budget) ==>
        && result.remaining == |WithStatus(queue.rows, Pending)|
        && Standing(old(queue.rows), |old(queue.delivered)|, |old(queue.begun)|, |old(central.log)|,
                    result.processed, result.failed)
      ensures budget == old(budget) && OnlyUpdates(old(queue.rows)) ==> proxy.cache == old(proxy.cache)
      ensures budget == old(budget) && reports == old(reports) && batchSize != 0 ==>
        (old(running) && old(monitor.isOnline) ==> WithStatus(queue.rows, Pending) == {})
      decreases budget, 7
    {
      hide SyncQueue.Valid, CentralProxy.FreshIds, Receipts, Run, OnlyInHand, HaveReceipts, WorkKept;
      var processed, failed := Drain();
      Interleave();
      var remaining := queue.GetPendingCount();
      Interleave();
      result := ProcessResult(processed, failed, remaining, StatusOf(processed, failed));
    }

    /** `process_queue`; `force_process` is the same call. */
    method ProcessQueue() returns (result: ProcessResult)
      requires Valid()
      modifies this, queue, central, monitor, proxy
      ensures Valid() && budget <= old(budget) && old(central.log) <= central.log
      // A second drain started while one is active does nothing at all.
      ensures old(processing) ==>
        && result.status == Empty && processing
        && Untouched() && budget == old(budget) && current == old(current) && receipts == old(receipts)
        && Steady(old(reports), old(running), old(monitor.isOnline))
      // A finished drain leaves no row in hand, and counts its deletions and its failed attempts.
      ensures !old(processing) ==>
        && !processing && (forall id :: id in queue.rows ==> queue.rows[id].status != Processing)
        && old(queue.delivered) <= queue.delivered && old(queue.begun) <= queue.begun
        && result.processed == |queue.delivered| - |old(queue.delivered)|
        && result.processed + result.failed == |queue.begun| - |old(queue.begun)|
        && result.status == StatusOf(result.processed, result.failed)
        && SentSince(|old(queue.delivered)|, |old(central.log)|)
      // The status says how the attempts of this drain ended: all, some or none of them with a deletion, or none made.
      ensures !old(processing) ==>
        var delivered, begun := |queue.delivered| - |old(queue.delivered)|, |queue.begun| - |old(queue.begun)|;
        && (result.status == Success <==> delivered > 0 && delivered == begun)
        && (result.status == Partial <==> delivered > 0 && delivered < begun)
        && (result.status == AllFailed <==> delivered == 0 && begun > 0)
        && (result.status == Empty <==> begun == 0)
      // Without other tasks, the outcome of the whole drain; without reports either, it leaves nothing pending.
      ensures !old(processing) && budget == old(budget) ==>
        && result.remaining == |WithStatus(queue.rows, Pending)|
        && Standing(old(queue.rows), |old(queue.delivered)|, |old(queue.begun)|, |old(central.log)|,
                    result.processed, result.failed)
      ensures !old(processing) && budget == old(budget) && result.status == Success ==>
        && OldestFirst(old(queue.rows), queue.delivered[|old(queue.delivered)|..])
        && SentInOrder(old(queue.rows), queue.delivered[|old(queue.delivered)|..], central.log[|old(central.log)|..],
                       proxy.siteId)
      ensures !old(processing) && budget == old(budget) && OnlyUpdates(old(queue.rows)) ==>
        proxy.cache == old(proxy.cache)
      ensures !old(processing) && budget == old(budget) && reports == old(reports) && batchSize != 0 ==>
        (old(running) && old(monitor.isOnline) ==> WithStatus(queue.rows, Pending) == {})
      decreases budget, 8
    {
      hide SyncQueue.Valid, CentralProxy.FreshIds, Receipts, Run, OldestFirst, SentInOrder, HaveReceipts, WorkKept;
      if processing {
        return ProcessResult(0, 0, 0, Empty);
      }
      processing := true;
      ghost var before, d, b, l := queue.rows, |queue.delivered|, |queue.begun|, |central.log|;
      result := TryProcess();
      if budget == old(budget) {
        StandingSucceeded(before, d, b, l, result.processed, result.failed);
      }
      processing := false;
    }
  }
}
