/** The durable queue of operations issued while central is unreachable (`SyncQueue`). */
module SyncQueue {
  import opened Wrappers

  /** Row ids: fresh UUIDs in the source, numbers here. */
  type Id = nat

  /** `item_type` and `payload` of a row. */
  datatype Payload =
    | Registration(fields: map<string, string>)
    | StateUpdate(nodeId: string, newState: string, mac: Option<string>)
    | Event(nodeId: string, event: map<string, string>)
    | UnknownType(itemType: string)

  datatype Status = Pending | Processing | Failed

  datatype Row = Row(payload: Payload, createdAt: int, attempts: nat, status: Status, lastError: Option<string>)

  type Table = map<Id, Row>

  /** What `peek` hands out: a copy of a row. */
  datatype Item = Item(id: Id, row: Row)

  function WithStatus(rows: Table, status: Status): set<Id> {
    set id | id in rows && rows[id].status == status
  }

  function One(present: bool): nat {
    if present then 1 else 0
  }

  function Ids(items: seq<Item>): (ids: seq<Id>)
    ensures |ids| == |items|
    ensures forall i :: 0 <= i < |items| ==> ids[i] == items[i].id
  {
    seq(|items|, i requires 0 <= i < |items| => items[i].id)
  }

  /** `SELECT … WHERE status = 'pending' ORDER BY created_at ASC LIMIT limit`; rows of equal age
      come in any order, and a negative limit is no limit. */
  ghost predicate IsPeek(rows: Table, limit: int, items: seq<Item>) {
    && (forall i :: 0 <= i < |items| ==>
          items[i].id in rows && rows[items[i].id] == items[i].row && items[i].row.status == Pending)
    && (forall i, j :: 0 <= i < j < |items| ==>
          items[i].id != items[j].id && items[i].row.createdAt <= items[j].row.createdAt)
    && (forall id, i :: id in WithStatus(rows, Pending) && id !in Ids(items) && 0 <= i < |items| ==>
          items[i].row.createdAt <= rows[id].createdAt)
    && (if 0 <= limit < |WithStatus(rows, Pending)| then |items| == limit
        else forall id :: id in WithStatus(rows, Pending) ==> id in Ids(items))
  }

  lemma OldestExists(rows: Table, ids: set<Id>)
    requires ids != {} && ids <= rows.Keys
    ensures exists id :: id in ids && forall other :: other in ids ==> rows[id].createdAt <= rows[other].createdAt
  {
    var id :| id in ids;
    if ids != {id} {
      var rest := ids - {id};
      OldestExists(rows, rest);
      var best :| best in rest && forall other :: other in rest ==> rows[best].createdAt <= rows[other].createdAt;
      var oldest := if rows[id].createdAt <= rows[best].createdAt then id else best;
      assert forall other :: other in ids ==> other == id || other in rest;
      assert forall other :: other in ids ==> rows[oldest].createdAt <= rows[other].createdAt;
    }
  }

  /** The state of the selection of `peek` while the pending rows `left` remain. */
  ghost predicate PeekedSoFar(rows: Table, left: set<Id>, items: seq<Item>) {
    && left <= WithStatus(rows, Pending)
    && (forall id :: id in WithStatus(rows, Pending) <==> id in left || id in Ids(items))
    && (forall id :: id in left ==> id !in Ids(items))
    && |items| + |left| == |WithStatus(rows, Pending)|
    && (forall i :: 0 <= i < |items| ==>
          items[i].id in rows && rows[items[i].id] == items[i].row && items[i].row.status == Pending)
    && (forall i, j :: 0 <= i < j < |items| ==>
          items[i].id != items[j].id && items[i].row.createdAt <= items[j].row.createdAt)
    && (forall id, i :: id in left && 0 <= i < |items| ==> items[i].row.createdAt <= rows[id].createdAt)
  }

  lemma IdsSnoc(items: seq<Item>, item: Item)
    ensures Ids(items + [item]) == Ids(items) + [item.id]
  {
  }

  lemma PeekNext(rows: Table, left: set<Id>, items: seq<Item>, id: Id)
    requires PeekedSoFar(rows, left, items)
    requires id in left && forall other :: other in left ==> rows[id].createdAt <= rows[other].createdAt
    ensures PeekedSoFar(rows, left - {id}, items + [Item(id, rows[id])])
  {
    var longer := items + [Item(id, rows[id])];
    assert forall i :: 0 <= i < |items| ==> Ids(items)[i] == items[i].id;
    IdsSnoc(items, Item(id, rows[id]));
    hide Ids;
    assert forall i :: 0 <= i < |items| ==> longer[i] == items[i];
  }

  /** Without a limit, a peek returns every pending row once. */
  lemma PeekAll(rows: Table, limit: int, items: seq<Item>)
    requires limit < 0 && IsPeek(rows, limit, items)
    ensures |items| == |WithStatus(rows, Pending)|
  {
    hide Ids;
    assert forall i, j :: 0 <= i < j < |items| ==> Ids(items)[i] != Ids(items)[j];
    DistinctElements(Ids(items), WithStatus(rows, Pending));
  }

  lemma {:induction false} DistinctElements(ids: seq<Id>, all: set<Id>)
    requires forall i, j :: 0 <= i < j < |ids| ==> ids[i] != ids[j]
    requires forall id :: id in all <==> id in ids
    ensures |ids| == |all|
    decreases |ids|
  {
    if ids == [] {
      assert all == {};
    } else {
      var last := ids[|ids| - 1];
      assert forall id :: id in ids[..|ids| - 1] <==> id in ids && id != last;
      DistinctElements(ids[..|ids| - 1], all - {last});
    }
  }

  class SyncQueue {
    var rows: Table
    // The whole life of the queue: every id ever enqueued with its payload, the ids dequeued after delivery in order,
    // the ids cleared, and one entry for each handling attempt begun.
    ghost var enqueued: map<Id, Payload>
    ghost var delivered: seq<Id>
    ghost var cleared: set<Id>
    ghost var begun: seq<Id>

    /** Each enqueued id is a row of exactly one status, or delivered once, or cleared; and the
        `attempts` column counts the attempts begun. */
    ghost predicate Valid()
      reads this
    {
      && (forall id :: id in enqueued <==> id in rows || id in delivered || id in cleared)
      && (forall id :: id in rows ==> id !in cleared)
      && (forall id :: id in delivered ==> id !in rows && id !in cleared)
      && (forall i, j :: 0 <= i < j < |delivered| ==> delivered[i] != delivered[j])
      && (forall id :: id in begun ==> id in enqueued)
      && forall id :: id in rows ==> rows[id].attempts == multiset(begun)[id] && rows[id].payload == enqueued[id]
    }

    constructor ()
      ensures Valid() && rows == map[] && enqueued == map[] && delivered == [] && cleared == {} && begun == []
    {
      rows := map[];
      enqueued, delivered, cleared, begun := map[], [], {}, [];
    }

    /** An id ever enqueued is in exactly one place: pending, processing, failed, delivered or cleared. */
    lemma OnePlace(id: Id)
      requires Valid() && id in enqueued
      ensures One(id in WithStatus(rows, Pending)) + One(id in WithStatus(rows, Processing))
            + One(id in WithStatus(rows, Failed)) + One(id in delivered) + One(id in cleared) == 1
    {
      if id in rows {
        assert id !in delivered && id !in cleared;
        assert forall status :: id in WithStatus(rows, status) <==> rows[id].status == status;
      } else {
        assert forall status :: id !in WithStatus(rows, status);
      }
    }

    lemma RowsEnqueued()
      requires Valid()
      ensures forall id :: id in rows ==> id in enqueued
    {
    }

    /** `enqueue`: inserting an id that is already in the table raises. An id that was in the table before
        would be in two places; the source makes its ids fresh. */
    method Enqueue(id: Id, payload: Payload, createdAt: int) returns (ok: bool)
      requires Valid()
      modifies this`rows, this`enqueued
      ensures Valid() <==> !ok || id !in old(enqueued)
      ensures ok <==> id !in old(rows)
      ensures rows == if ok then old(rows)[id := Row(payload, createdAt, 0, Pending, None)] else old(rows)
      ensures enqueued == if ok then old(enqueued)[id := payload] else old(enqueued)
    {
      if id in rows {
        return false;
      }
      rows := rows[id := Row(payload, createdAt, 0, Pending, None)];
      enqueued := enqueued[id := payload];
      return true;
    }

    /** `peek`. */
    method Peek(limit: int) returns (items: seq<Item>)
      ensures IsPeek(rows, limit, items)
    {
      hide Ids;
      items := [];
      var left := WithStatus(rows, Pending);
      while left != {} && |items| != limit
        invariant PeekedSoFar(rows, left, items)
        invariant limit >= 0 ==> |items| <= limit
        decreases left
      {
        OldestExists(rows, left);
        var id :| id in left && forall other :: other in left ==> rows[id].createdAt <= rows[other].createdAt;
        PeekNext(rows, left, items, id);
        items, left := items + [Item(id, rows[id])], left - {id};
      }
    }

    /** `dequeue`. */
    method Dequeue(id: Id) returns (removed: bool)
      requires Valid()
      modifies this`rows, this`delivered
      ensures Valid()
      ensures removed <==> id in old(rows)
      ensures rows == old(rows) - {id}
      ensures delivered == if removed then old(delivered) + [id] else old(delivered)
    {
      removed := id in rows;
      rows := rows - {id};
      if removed {
        delivered := delivered + [id];
      }
    }

    /** `mark_processing`: also counts the attempt. */
    method MarkProcessing(id: Id) returns (updated: bool)
      requires Valid()
      modifies this`rows, this`begun
      ensures Valid()
      ensures updated <==> id in old(rows)
      ensures rows == if updated
        then old(rows)[id := old(rows)[id].(status := Processing, attempts := old(rows)[id].attempts + 1)]
        else old(rows)
      ensures begun == if updated then old(begun) + [id] else old(begun)
    {
      updated := id in rows;
      if updated {
        rows := rows[id := rows[id].(status := Processing, attempts := rows[id].attempts + 1)];
        begun := begun + [id];
      }
    }

    /** `mark_pending`. */
    method MarkPending(id: Id) returns (updated: bool)
      requires Valid()
      modifies this`rows
      ensures Valid()
      ensures updated <==> id in old(rows)
      ensures rows == if updated then old(rows)[id := old(rows)[id].(status := Pending)] else old(rows)
    {
      updated := id in rows;
      if updated {
        rows := rows[id := rows[id].(status := Pending)];
      }
    }

    /** `mark_failed`. */
    method MarkFailed(id: Id, error: string) returns (updated: bool)
      requires Valid()
      modifies this`rows
      ensures Valid()
      ensures updated <==> id in old(rows)
      ensures rows == if updated
        then old(rows)[id := old(rows)[id].(status := Failed, lastError := Some(error))] else old(rows)
    {
      updated := id in rows;
      if updated {
        rows := rows[id := rows[id].(status := Failed, lastError := Some(error))];
      }
    }

    /** `get_pending_count`: a scan of the rows, which counts what a `peek` without a limit would return. */
    method GetPendingCount() returns (n: nat)
      ensures n == |WithStatus(rows, Pending)|
      ensures forall limit, items :: limit < 0 && IsPeek(rows, limit, items) ==> |items| == n
    {
      n := 0;
      var left := rows.Keys;
      ghost var counted: set<Id> := {};
      while left != {}
        invariant left <= rows.Keys && counted == WithStatus(rows, Pending) - left && n == |counted|
        decreases left
      {
        var id :| id in left;
        left := left - {id};
        if rows[id].status == Pending {
          n, counted := n + 1, counted + {id};
        }
      }
      assert counted == WithStatus(rows, Pending);
      forall limit, items | limit < 0 && IsPeek(rows, limit, items)
        ensures |items| == n
      {
        PeekAll(rows, limit, items);
      }
    }

    /** `clear_failed`. */
    method ClearFailed() returns (n: nat)
      requires Valid()
      modifies this`rows, this`cleared
      ensures Valid()
      ensures rows == old(rows) - WithStatus(old(rows), Failed)
      ensures cleared == old(cleared) + WithStatus(old(rows), Failed)
      ensures n == |WithStatus(old(rows), Failed)|
    {
      var failed := WithStatus(rows, Failed);
      rows, cleared := rows - failed, cleared + failed;
      n := |failed|;
    }

    /** `retry_failed`: the attempts already made stay counted. */
    method RetryFailed() returns (n: nat)
      requires Valid()
      modifies this`rows
      ensures Valid()
      ensures rows == map id | id in old(rows) ::
        if old(rows)[id].status == Failed then old(rows)[id].(status := Pending, lastError := None) else old(rows)[id]
      ensures n == |WithStatus(old(rows), Failed)|
    {
      n := |WithStatus(rows, Failed)|;
      rows := map id | id in rows ::
        if rows[id].status == Failed then rows[id].(status := Pending, lastError := None) else rows[id];
    }
  }
}
