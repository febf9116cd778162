/** Sharing bandwidth among file transfers (`BandwidthThrottler`, `throttled_iterator`); the source's
    floats are real numbers here. */
module BandwidthThrottler {
  import opened Sequences

  const MIN_BANDWIDTH_BYTES_PER_SEC := 125_000
  const SMALL_FILE := 10 * 1024 * 1024

  // ---------------------------------------------------------------- one transfer

  /** What the throttler knows of a transfer. */
  datatype Transfer = Transfer(totalBytes: int, bytesTransferred: int, priority: real)

  function Progress(totalBytes: int, bytesTransferred: int): real {
    if totalBytes <= 0 then 0.0
    else
      var fraction := bytesTransferred as real / totalBytes as real;
      if fraction <= 1.0 then fraction else 1.0
  }

  function RemainingBytes(totalBytes: int, bytesTransferred: int): int {
    Max(0, totalBytes - bytesTransferred)
  }

  function CalculatePriority(totalBytes: int, bytesTransferred: int): real {
    var sizeFactor := if totalBytes < SMALL_FILE then 1.0 - totalBytes as real / SMALL_FILE as real else 0.0;
    var progress := Progress(totalBytes, bytesTransferred);
    var completionFactor := if progress > 0.8 then (progress - 0.8) / 0.2 else 0.0;
    1.0 + sizeFactor + completionFactor
  }

  /** A transfer as the throttler keeps it: its priority is that of its current progress. */
  predicate Consistent(t: Transfer) {
    && t.totalBytes >= 0 && t.bytesTransferred >= 0
    && t.priority == CalculatePriority(t.totalBytes, t.bytesTransferred)
  }

  lemma FractionAtLeast(a: int, b: int)
    requires a >= 0 && b > 0
    ensures a as real / b as real >= 0.0
    ensures a < b ==> a as real / b as real < 1.0
  {
  }

  lemma PriorityRange(t: Transfer)
    requires Consistent(t)
    ensures 1.0 <= t.priority <= 3.0
  {
    FractionAtLeast(t.totalBytes, SMALL_FILE);
    if t.totalBytes > 0 {
      FractionAtLeast(t.bytesTransferred, t.totalBytes);
    }
  }

  lemma FractionMonotone(a: int, b: int, total: int)
    requires a <= b && total > 0
    ensures a as real / total as real <= b as real / total as real
  {
    var whole := total as real;
    assert b as real / whole == a as real / whole + (b - a) as real / whole;
    FractionAtLeast(b - a, total);
  }

  lemma FractionOf(a: int, total: int)
    requires total > 0
    ensures a as real == a as real / total as real * total as real
    ensures a >= total ==> a as real / total as real >= 1.0
  {
    if a >= total {
      FractionMonotone(total, a, total);
    }
  }

  /** Progress goes from 0 to 1 and never falls as bytes are sent. */
  lemma ProgressGrows(totalBytes: int, sent: nat, more: nat)
    requires sent <= more
    ensures Progress(totalBytes, 0) == 0.0
    ensures 0.0 <= Progress(totalBytes, sent) <= Progress(totalBytes, more) <= 1.0
    ensures 0 < totalBytes <= more ==> Progress(totalBytes, more) == 1.0
  {
    if totalBytes > 0 {
      FractionAtLeast(sent, totalBytes);
      FractionMonotone(sent, more, totalBytes);
      FractionOf(more, totalBytes);
      FractionOf(0, totalBytes);
    }
  }

  /** A file that is no larger, or is as far on or nearer completion, never has a lower priority than another. */
  lemma PriorityMonotone(totalBytes: int, sent: int, larger: int, lessSent: int)
    requires 0 <= totalBytes <= larger && Progress(larger, lessSent) <= Progress(totalBytes, sent)
    ensures CalculatePriority(larger, lessSent) <= CalculatePriority(totalBytes, sent)
  {
    hide Progress;
    FractionMonotone(totalBytes, larger, SMALL_FILE);
    if totalBytes < SMALL_FILE {
      FractionAtLeast(totalBytes, SMALL_FILE);
    }
  }

  /** The ends of the scale: a large new file has priority 1, an empty one 2; finishing adds 1, of which nothing comes
      in the first four fifths. */
  lemma PriorityEnds(totalBytes: int, sent: nat)
    requires totalBytes >= 0
    ensures totalBytes >= 10_485_760 ==> CalculatePriority(totalBytes, 0) == 1.0
    ensures CalculatePriority(0, sent) == 2.0 && CalculatePriority(5_242_880, 0) == 1.5
    ensures 0 < totalBytes <= sent ==> CalculatePriority(totalBytes, sent) == CalculatePriority(totalBytes, 0) + 1.0
    ensures 10 * sent <= 8 * totalBytes ==> CalculatePriority(totalBytes, sent) == CalculatePriority(totalBytes, 0)
    ensures totalBytes > 0 && 10 * sent == 9 * totalBytes ==>
      CalculatePriority(totalBytes, sent) == CalculatePriority(totalBytes, 0) + 0.5
  {
    ProgressGrows(totalBytes, 0, sent);
    ProgressGrows(5_242_880, 0, 0);
    if totalBytes > 0 {
      FractionOf(sent, totalBytes);
      var fraction := sent as real / totalBytes as real;
      TenthsOf(fraction, sent, totalBytes);
      if 10 * sent <= 9 * totalBytes {
        assert Progress(totalBytes, sent) == fraction;
      }
    }
    hide Progress;
  }

  lemma TenthsOf(fraction: real, part: int, whole: int)
    requires whole > 0 && part as real == fraction * whole as real
    ensures 10 * part <= 8 * whole ==> fraction <= 0.8
    ensures 10 * part == 9 * whole ==> fraction == 0.9
    ensures 10 * part <= 9 * whole ==> fraction <= 0.9
  {
    var p, w := part as real, whole as real;
    assert (10 * part) as real == 10.0 * p && (8 * whole) as real == 8.0 * w && (9 * whole) as real == 9.0 * w;
    AtMost(fraction, 0.8, w);
    AtMost(fraction, 0.9, w);
    AtMost(0.9, fraction, w);
  }

  lemma AtMost(left: real, right: real, whole: real)
    requires whole > 0.0
    ensures left * whole <= right * whole ==> left <= right
  {
    if left > right {
      assert (left - right) * whole > 0.0;
    }
  }

  // ---------------------------------------------------------------- the allocator

  type Transfers = map<string, Transfer>

  ghost predicate AllConsistent(ts: Transfers) {
    forall id :: id in ts ==> Consistent(ts[id])
  }

  /** The sum of the priorities of the transfers `ids`. */
  ghost function TotalPriority(ts: Transfers, ids: set<string>): real
    requires ids <= ts.Keys
  {
    if ids == {} then 0.0
    else
      var id :| id in ids;
      ts[id].priority + TotalPriority(ts, ids - {id})
  }

  lemma {:induction false} TotalPrioritySplit(ts: Transfers, ids: set<string>, id: string)
    requires ids <= ts.Keys && id in ids
    ensures TotalPriority(ts, ids) == ts[id].priority + TotalPriority(ts, ids - {id})
    decreases |ids|
  {
    var picked :| picked in ids && TotalPriority(ts, ids) == ts[picked].priority + TotalPriority(ts, ids - {picked});
    if picked != id {
      TotalPrioritySplit(ts, ids - {picked}, id);
      TotalPrioritySplit(ts, ids - {id}, picked);
      assert ids - {picked} - {id} == ids - {id} - {picked};
    }
  }

  lemma {:induction false} TotalPriorityRange(ts: Transfers, ids: set<string>)
    requires ids <= ts.Keys && AllConsistent(ts)
    ensures |ids| as real <= TotalPriority(ts, ids) <= 3.0 * |ids| as real
    decreases |ids|
  {
    if ids != {} {
      var id :| id in ids;
      TotalPrioritySplit(ts, ids, id);
      PriorityRange(ts[id]);
      TotalPriorityRange(ts, ids - {id});
    }
  }

  /** `int(x)`. */
  function Truncate(x: real): int {
    if x >= 0.0 then x.Floor else -((-x).Floor)
  }

  function Floor(interval: real): int {
    Truncate(MIN_BANDWIDTH_BYTES_PER_SEC as real * interval)
  }

  /** What a share of the bandwidth comes to before the floor and the remaining bytes bound it. */
  function Share(priority: real, total: real, bandwidth: int, interval: real): int
    requires total != 0.0
  {
    Truncate(bandwidth as real * interval * (priority / total))
  }

  function Allowed(t: Transfer, total: real, bandwidth: int, interval: real): int
    requires total != 0.0
  {
    Min(Max(Share(t.priority, total, bandwidth, interval), Floor(interval)),
        RemainingBytes(t.totalBytes, t.bytesTransferred))
  }

  /** `get_allowed_bytes`, as a function of the transfers it finds. */
  ghost function Grant(ts: Transfers, bandwidth: int, id: string, interval: real): int
    requires AllConsistent(ts)
  {
    if id !in ts then 0
    else
      TotalPriorityRange(ts, ts.Keys);
      TotalPositive(ts, id);
      Allowed(ts[id], TotalPriority(ts, ts.Keys), bandwidth, interval)
  }

  lemma TotalPositive(ts: Transfers, id: string)
    requires AllConsistent(ts) && id in ts
    ensures TotalPriority(ts, ts.Keys) >= 1.0
  {
    TotalPriorityRange(ts, ts.Keys);
    assert ts.Keys != {};
  }

  /** The sum of the grants to the transfers `ids` for one interval. */
  ghost function TotalGrant(ts: Transfers, bandwidth: int, ids: set<string>, interval: real): int
    requires AllConsistent(ts)
  {
    if ids == {} then 0
    else
      var id :| id in ids;
      Grant(ts, bandwidth, id, interval) + TotalGrant(ts, bandwidth, ids - {id}, interval)
  }

  // ---------------------------------------------------------------- bounds on the grants

  lemma ShareIsProportional(x: real, priority: real, total: real)
    requires total > 0.0
    ensures x * (priority / total) == (x / total) * priority
  {
  }

  lemma TruncateBelow(x: real)
    requires x >= 0.0
    ensures 0 <= Truncate(x) && Truncate(x) as real <= x < Truncate(x) as real + 1.0
  {
  }

  lemma TruncateMonotone(x: real, y: real)
    requires 0.0 <= x <= y
    ensures Truncate(x) <= Truncate(y)
  {
    TruncateBelow(x);
    TruncateBelow(y);
  }

  lemma ProductNonNegative(x: real, y: real)
    requires x >= 0.0 && y >= 0.0
    ensures x * y >= 0.0
  {
  }

  lemma QuotientNonNegative(x: real, y: real)
    requires x >= 0.0 && y > 0.0
    ensures x / y >= 0.0
  {
  }

  lemma ShareBelow(priority: real, total: real, bandwidth: int, interval: real)
    requires priority >= 0.0 && total > 0.0 && bandwidth >= 0 && interval >= 0.0
    ensures 0.0 <= Share(priority, total, bandwidth, interval) as real
      <= (bandwidth as real * interval / total) * priority
  {
    var x := bandwidth as real * interval;
    ProductNonNegative(bandwidth as real, interval);
    ShareIsProportional(x, priority, total);
    QuotientNonNegative(priority, total);
    ProductNonNegative(x, priority / total);
    TruncateBelow(x * (priority / total));
  }

  /** The share is the whole bytes of the capacity of the interval in proportion to the priority. */
  lemma ShareInProportion(priority: real, total: real, bandwidth: int, interval: real, capacity: real)
    requires priority >= 0.0 && total > 0.0 && bandwidth >= 0 && interval >= 0.0
    requires capacity == bandwidth as real * interval
    ensures var share := Share(priority, total, bandwidth, interval) as real;
      Scaled(total, share) <= Scaled(capacity, priority) < Scaled(total, share) + total
  {
    ProductNonNegative(bandwidth as real, interval);
    var ratio := priority / total;
    var share := Truncate(capacity * ratio);
    assert Share(priority, total, bandwidth, interval) == share;
    hide *;
    PartOf(capacity, priority, total, ratio);
  }

  lemma PartOf(capacity: real, priority: real, total: real, ratio: real)
    requires capacity >= 0.0 && priority >= 0.0 && total > 0.0 && ratio == priority / total
    ensures var part := Truncate(capacity * ratio) as real;
      Scaled(total, part) <= Scaled(capacity, priority) < Scaled(total, part) + total
  {
    QuotientNonNegative(priority, total);
    ProductNonNegative(capacity, ratio);
    TruncateBelow(capacity * ratio);
    OneApart(Truncate(capacity * ratio) as real, capacity * ratio, total);
    SameProduct(capacity, ratio, priority, total);
    hide *;
  }

  lemma OneApart(low: real, x: real, total: real)
    requires low <= x < low + 1.0 && total > 0.0
    ensures Scaled(total, low) <= Scaled(total, x) < Scaled(total, low) + total
  {
    var high := low + 1.0;
    assert total * (x - low) >= 0.0;
    assert total * (high - x) > 0.0;
    ScaledSum(total, low, 1.0);
    assert Scaled(total, 1.0) == total;
  }

  lemma SameProduct(capacity: real, ratio: real, priority: real, total: real)
    requires total > 0.0 && ratio == priority / total
    ensures Scaled(total, capacity * ratio) == Scaled(capacity, priority)
  {
    QuotientTimes(priority, total);
    Reorder(capacity, ratio, total);
  }

  lemma QuotientTimes(priority: real, total: real)
    requires total > 0.0
    ensures (priority / total) * total == priority
  {
  }

  lemma Reorder(capacity: real, ratio: real, total: real)
    ensures total * (capacity * ratio) == capacity * (ratio * total)
  {
  }

  /** The floor is one megabit for each second of the interval. */
  lemma FloorOf(interval: real)
    requires interval >= 0.0
    ensures Floor(interval) as real <= 125_000.0 * interval < Floor(interval) as real + 1.0
    ensures Floor(1.0) == 125_000
  {
    ProductNonNegative(125_000.0, interval);
    TruncateBelow(125_000.0 * interval);
    TruncateBelow(125_000.0);
  }

  /** A registered transfer is granted its share, or the floor where that is more, but never more than it has left;
      an unregistered one is granted nothing. */
  lemma GrantIs(ts: Transfers, bandwidth: int, id: string, interval: real)
    requires AllConsistent(ts)
    ensures id !in ts ==> Grant(ts, bandwidth, id, interval) == 0
    ensures id in ts ==>
      var share, left := Share(ts[id].priority, PositiveTotal(ts), bandwidth, interval),
        ts[id].totalBytes - ts[id].bytesTransferred;
      && (left <= 0 ==> Grant(ts, bandwidth, id, interval) == Min(0, Max(share, Floor(interval))))
      && (0 < left <= share || 0 < left <= Floor(interval) ==> Grant(ts, bandwidth, id, interval) == left)
      && (Floor(interval) <= share < left ==> Grant(ts, bandwidth, id, interval) == share)
      && (share <= Floor(interval) < left ==> Grant(ts, bandwidth, id, interval) == Floor(interval))
  {
    if id in ts {
      TotalPositive(ts, id);
    }
    hide Share, Floor, TotalPriority, CalculatePriority;
  }

  lemma FloorNonNegative(interval: real)
    requires interval >= 0.0
    ensures Floor(interval) >= 0
  {
    TruncateBelow(MIN_BANDWIDTH_BYTES_PER_SEC as real * interval);
  }

  lemma BoundedGrant(share: int, floor: int, remaining: int, bound: real, lifted: bool)
    requires share as real <= bound && floor >= 0 && bound >= 0.0 && (!lifted ==> share >= floor)
    ensures Min(Max(share, floor), remaining) as real <= bound + (if lifted then floor as real else 0.0)
  {
  }

  /** The total priority, or 1 when there are no transfers. */
  ghost function PositiveTotal(ts: Transfers): (total: real)
    requires AllConsistent(ts)
    ensures total >= 1.0
    ensures ts != map[] ==> total == TotalPriority(ts, ts.Keys)
  {
    TotalPriorityRange(ts, ts.Keys);
    if ts.Keys == {} then 1.0 else TotalPriority(ts, ts.Keys)
  }

  /** The bandwidth of an interval per unit of priority. */
  ghost function PerPriority(ts: Transfers, bandwidth: int, interval: real): real
    requires AllConsistent(ts)
  {
    bandwidth as real * interval / PositiveTotal(ts)
  }

  function Scaled(c: real, x: real): real {
    c * x
  }

  function Floors(n: nat, floor: int): int {
    n * floor
  }

  lemma ScaledSum(c: real, x: real, y: real)
    ensures Scaled(c, x + y) == Scaled(c, x) + Scaled(c, y)
  {
  }

  lemma FloorsNext(n: nat, floor: int)
    ensures Floors(n + 1, floor) == Floors(n, floor) + floor
  {
  }

  /** When the floor does not lift the share of any of `ids`. */
  ghost predicate NoneLifted(ts: Transfers, bandwidth: int, ids: set<string>, interval: real)
    requires AllConsistent(ts) && ids <= ts.Keys
  {
    forall id :: id in ids ==> Share(ts[id].priority, PositiveTotal(ts), bandwidth, interval) >= Floor(interval)
  }

  lemma GrantBelow(ts: Transfers, bandwidth: int, id: string, interval: real, lifted: bool)
    requires AllConsistent(ts) && id in ts && bandwidth >= 0 && interval >= 0.0
    requires !lifted ==> Share(ts[id].priority, PositiveTotal(ts), bandwidth, interval) >= Floor(interval)
    ensures Grant(ts, bandwidth, id, interval) as real <=
      Scaled(PerPriority(ts, bandwidth, interval), ts[id].priority) + (if lifted then Floor(interval) as real else 0.0)
  {
    var t, share := ts[id], Share(ts[id].priority, PositiveTotal(ts), bandwidth, interval);
    var bound := Scaled(PerPriority(ts, bandwidth, interval), t.priority);
    TotalPositive(ts, id);
    FloorNonNegative(interval);
    ShareWithin(ts, bandwidth, id, interval);
    assert Grant(ts, bandwidth, id, interval)
      == Min(Max(share, Floor(interval)), RemainingBytes(t.totalBytes, t.bytesTransferred)) by {
      hide Share, Floor, RemainingBytes, CalculatePriority, Scaled, PerPriority;
    }
    hide *;
    BoundedGrant(share, Floor(interval), RemainingBytes(t.totalBytes, t.bytesTransferred), bound, lifted);
  }

  lemma ShareWithin(ts: Transfers, bandwidth: int, id: string, interval: real)
    requires AllConsistent(ts) && id in ts && bandwidth >= 0 && interval >= 0.0
    ensures 0.0 <= Share(ts[id].priority, PositiveTotal(ts), bandwidth, interval) as real
      <= Scaled(PerPriority(ts, bandwidth, interval), ts[id].priority)
  {
    PriorityRange(ts[id]);
    hide Share, PositiveTotal, CalculatePriority;
    ShareBelow(ts[id].priority, PositiveTotal(ts), bandwidth, interval);
  }

  lemma {:induction false} TotalGrantBelow(ts: Transfers, bandwidth: int, ids: set<string>, interval: real,
                                           lifted: bool)
    requires AllConsistent(ts) && ids <= ts.Keys && bandwidth >= 0 && interval >= 0.0
    requires !lifted ==> NoneLifted(ts, bandwidth, ids, interval)
    ensures TotalGrant(ts, bandwidth, ids, interval) as real <=
      Scaled(PerPriority(ts, bandwidth, interval), TotalPriority(ts, ids))
        + (if lifted then Floors(|ids|, Floor(interval)) else 0) as real
    decreases |ids|
  {
    if ids == {} {
      assert Scaled(PerPriority(ts, bandwidth, interval), 0.0) == 0.0;
    } else {
      var id :| id in ids && TotalGrant(ts, bandwidth, ids, interval)
        == Grant(ts, bandwidth, id, interval) + TotalGrant(ts, bandwidth, ids - {id}, interval);
      TotalPrioritySplit(ts, ids, id);
      hide PositiveTotal, AllConsistent, Grant, Share, Floor, Floors, Scaled, PerPriority, TotalPriority, TotalGrant;
      TotalGrantBelow(ts, bandwidth, ids - {id}, interval, lifted);
      GrantBelow(ts, bandwidth, id, interval, lifted);
      ScaledSum(PerPriority(ts, bandwidth, interval), ts[id].priority, TotalPriority(ts, ids - {id}));
      FloorsNext(|ids - {id}|, Floor(interval));
    }
  }

  lemma DivideAndMultiply(x: real, total: real)
    requires total >= 1.0
    ensures Scaled(x / total, total) == x
  {
  }

  /** For one interval, all transfers together are granted at most the bandwidth plus one floor each,
      and at most the bandwidth when the floor lifts no share. */
  lemma GrantsWithinBandwidth(ts: Transfers, bandwidth: int, interval: real)
    requires AllConsistent(ts) && bandwidth >= 0 && interval >= 0.0
    ensures TotalGrant(ts, bandwidth, ts.Keys, interval) as real
      <= bandwidth as real * interval + (|ts| * Floor(interval)) as real
    ensures NoneLifted(ts, bandwidth, ts.Keys, interval) ==>
      TotalGrant(ts, bandwidth, ts.Keys, interval) as real <= bandwidth as real * interval
  {
    var x := bandwidth as real * interval;
    ProductNonNegative(bandwidth as real, interval);
    DivideAndMultiply(x, PositiveTotal(ts));
    assert Scaled(PerPriority(ts, bandwidth, interval), PositiveTotal(ts)) == x;
    assert Scaled(PerPriority(ts, bandwidth, interval), 0.0) == 0.0;
    assert Floors(|ts.Keys|, Floor(interval)) == |ts| * Floor(interval);
    var spread := Scaled(PerPriority(ts, bandwidth, interval), TotalPriority(ts, ts.Keys));
    assert spread <= x by {
      if ts.Keys == {} {
        assert TotalPriority(ts, ts.Keys) == 0.0;
      }
    }
    hide PositiveTotal, AllConsistent, Floor, Floors, Scaled, PerPriority, TotalPriority, TotalGrant, NoneLifted;
    TotalGrantBelow(ts, bandwidth, ts.Keys, interval, true);
    if NoneLifted(ts, bandwidth, ts.Keys, interval) {
      TotalGrantBelow(ts, bandwidth, ts.Keys, interval, false);
    }
  }

  lemma QuotientAntitone(x: real, small: real, large: real)
    requires x >= 0.0 && 0.0 < small <= large
    ensures x / large <= x / small
  {
  }

  lemma TimesAtLeastOne(x: real, factor: real)
    requires x >= 0.0 && factor >= 1.0
    ensures x * factor >= x
  {
  }

  /** A priority of at least 1 among priorities of at most 3 earns a third of an equal share. */
  lemma ShareAtLeast(priority: real, total: real, n: real, bandwidth: int, interval: real)
    requires priority >= 1.0 && 1.0 <= total <= 3.0 * n && bandwidth >= 0 && interval >= 0.0
    ensures Share(priority, total, bandwidth, interval) >= Truncate(bandwidth as real * interval / (3.0 * n))
  {
    var x := bandwidth as real * interval;
    ProductNonNegative(bandwidth as real, interval);
    ShareIsProportional(x, priority, total);
    QuotientAntitone(x, total, 3.0 * n);
    QuotientNonNegative(x, 3.0 * n);
    TimesAtLeastOne(x / total, priority);
    TruncateMonotone(x / (3.0 * n), x * (priority / total));
  }

  /** No transfer starves: it is granted the floor and a third of an equal share, or all it has left. */
  lemma GrantAtLeast(ts: Transfers, bandwidth: int, id: string, interval: real)
    requires AllConsistent(ts) && id in ts && bandwidth >= 0 && interval >= 0.0
    ensures |ts| > 0
    ensures Grant(ts, bandwidth, id, interval) >=
      Min(RemainingBytes(ts[id].totalBytes, ts[id].bytesTransferred),
          Max(Floor(interval), Truncate(bandwidth as real * interval / (3.0 * |ts| as real))))
  {
    TotalPositive(ts, id);
    TotalPriorityRange(ts, ts.Keys);
    assert |ts.Keys| == |ts|;
    PriorityRange(ts[id]);
    hide TotalPriority, Share, Floor, Truncate, RemainingBytes, CalculatePriority;
    ShareAtLeast(ts[id].priority, TotalPriority(ts, ts.Keys), |ts| as real, bandwidth, interval);
  }

  lemma NoPriority(ts: Transfers)
    ensures TotalPriority(ts, {}) == 0.0
  {
  }

  lemma NewTransferConsistent(ts: Transfers, id: string, totalBytes: int)
    requires AllConsistent(ts) && totalBytes >= 0
    ensures AllConsistent(ts[id := Transfer(totalBytes, 0, CalculatePriority(totalBytes, 0))])
  {
    hide CalculatePriority;
  }

  // ---------------------------------------------------------------- the objects

  class ActiveTransfer {
    const totalBytes: int
    var bytesTransferred: int
    var priority: real

    constructor (totalBytes: int)
      ensures this.totalBytes == totalBytes && bytesTransferred == 0 && priority == 1.0
    {
      this.totalBytes, this.bytesTransferred, this.priority := totalBytes, 0, 1.0;
    }

    function View(): Transfer
      reads this
    {
      Transfer(totalBytes, bytesTransferred, priority)
    }
  }

  class BandwidthThrottler {
    var bandwidth: int
    var transfers: map<string, ActiveTransfer>

    constructor (totalBandwidthMbps: int)
      ensures Valid() && Views() == map[] && bandwidth == totalBandwidthMbps * 125_000
    {
      bandwidth, transfers := totalBandwidthMbps * 125_000, map[];
    }

    ghost function Views(): Transfers
      reads this, transfers.Values
    {
      map id | id in transfers :: transfers[id].View()
    }

    /** Distinct ids have distinct transfer objects, and every priority is up to date. */
    ghost predicate Valid()
      reads this, transfers.Values
    {
      && (forall id, other :: id in transfers && other in transfers && id != other ==>
        transfers[id] != transfers[other])
      && AllConsistent(Views())
    }

    /** `register_transfer`. */
    method RegisterTransfer(id: string, totalBytes: int) returns (transfer: ActiveTransfer)
      requires Valid() && totalBytes >= 0
      modifies this`transfers
      ensures Valid() && fresh(transfer) && transfers == old(transfers)[id := transfer]
      ensures Views() == old(Views())[id := Transfer(totalBytes, 0, CalculatePriority(totalBytes, 0))]
    {
      hide CalculatePriority, AllConsistent, Consistent;
      ghost var views := Views();
      transfer := new ActiveTransfer(totalBytes);
      transfer.priority := CalculatePriority(transfer.totalBytes, transfer.bytesTransferred);
      NewTransferConsistent(views, id, totalBytes);
      transfers := transfers[id := transfer];
      assert Views() == views[id := transfer.View()];
    }

    /** `unregister_transfer`. */
    method UnregisterTransfer(id: string)
      requires Valid()
      modifies this`transfers
      ensures Valid() && transfers == old(transfers) - {id}
      ensures Views() == old(Views()) - {id}
    {
      hide Consistent;
      ghost var views := Views();
      transfers := transfers - {id};
      assert forall other :: other in transfers ==> Views()[other] == views[other];
    }

    /** `update_progress`: the priority follows the progress. */
    method UpdateProgress(id: string, bytesSent: nat)
      requires Valid()
      modifies transfers.Values
      ensures Valid() && transfers == old(transfers)
      ensures id !in transfers ==> Views() == old(Views())
      ensures id in transfers ==>
        var t := old(Views())[id];
        Views() == old(Views())[id := Transfer(t.totalBytes, t.bytesTransferred + bytesSent,
                                              CalculatePriority(t.totalBytes, t.bytesTransferred + bytesSent))]
    {
      if id in transfers {
        var transfer := transfers[id];
        assert Consistent(Views()[id]);
        hide CalculatePriority;
        transfer.bytesTransferred := transfer.bytesTransferred + bytesSent;
        transfer.priority := CalculatePriority(transfer.totalBytes, transfer.bytesTransferred);
        forall other | other in transfers && other != id
          ensures transfers[other].View() == old(Views())[other]
        {
        }
      }
    }

    /** `get_allowed_bytes`, with its sum over the priorities. */
    method GetAllowedBytes(id: string, interval: real) returns (allowed: int)
      requires Valid()
      ensures allowed == Grant(Views(), bandwidth, id, interval)
    {
      if id !in transfers {
        return 0;
      }
      TotalPositive(Views(), id);
      ghost var views := Views();
      assert views.Keys == transfers.Keys;
      assert forall other :: other in transfers ==> views[other] == transfers[other].View();
      hide CalculatePriority, Consistent, AllConsistent, TotalPriority, Allowed;
      var total, left := 0.0, transfers.Keys;
      while left != {}
        invariant left <= transfers.Keys
        invariant total + TotalPriority(views, left) == TotalPriority(views, views.Keys)
        decreases left
      {
        var other :| other in left;
        TotalPrioritySplit(views, left, other);
        total, left := total + transfers[other].priority, left - {other};
      }
      NoPriority(views);
      allowed := Allowed(transfers[id].View(), total, bandwidth, interval);
    }
  }

  // ---------------------------------------------------------------- the throttled stream

  /** One stream of content: what it yielded, and the grant behind each yield. */
  datatype Stream = Stream(pieces: seq<Bytes>, grants: seq<int>)

  /** Every yield carries something, and fits the chunk size and its grant. */
  ghost predicate WithinGrants(stream: Stream, chunkSize: int) {
    && |stream.pieces| == |stream.grants|
    && forall i :: 0 <= i < |stream.pieces| ==>
         1 <= |stream.pieces[i]| <= chunkSize && |stream.pieces[i]| <= stream.grants[i]
  }

  /** A round can send something exactly when the transfer is registered and has bytes left: content
      beyond the registered total, or of an unregistered transfer, would wait for ever. */
  lemma GrantPositive(ts: Transfers, bandwidth: int, id: string)
    requires AllConsistent(ts)
    ensures Grant(ts, bandwidth, id, 0.1) >= 1
      <==> id in ts && RemainingBytes(ts[id].totalBytes, ts[id].bytesTransferred) > 0
    ensures id in ts ==> Grant(ts, bandwidth, id, 0.1) <= RemainingBytes(ts[id].totalBytes, ts[id].bytesTransferred)
  {
    assert MIN_BANDWIDTH_BYTES_PER_SEC as real * 0.1 == 12500.0;
    assert Floor(0.1) == 12500;
    if id in ts {
      TotalPositive(ts, id);
    }
    hide Share, Floor, CalculatePriority, TotalPriority;
  }

  /** Other streams and callers while this stream awaits: they register, advance, end and reconfigure
      whatever they like, but not the transfer `id`. */
  method Interleave(throttler: BandwidthThrottler, id: string)
    requires throttler.Valid() && id in throttler.transfers
    modifies throttler, throttler.transfers.Values
    ensures throttler.Valid() && id in throttler.transfers
    ensures throttler.Views()[id] == old(throttler.Views())[id]
      && throttler.transfers[id] == old(throttler.transfers[id])
    ensures forall t :: t in throttler.transfers.Values && t !in old(throttler.transfers.Values) ==> fresh(t)
  {
    var steps: nat := *;
    while steps > 0
      invariant throttler.Valid() && id in throttler.transfers
      invariant throttler.Views()[id] == old(throttler.Views())[id]
        && throttler.transfers[id] == old(throttler.transfers[id])
      invariant forall t :: t in throttler.transfers.Values && t !in old(throttler.transfers.Values) ==> fresh(t)
    {
      hide Consistent, CalculatePriority;
      var other: string, size: nat, choice: int := *, *, *;
      if other != id {
        if choice == 0 {
          var _ := throttler.RegisterTransfer(other, size);
        } else if choice == 1 {
          throttler.UpdateProgress(other, size);
        } else if choice == 2 {
          throttler.UnregisterTransfer(other);
        } else {
          throttler.bandwidth := *;
        }
      }
      steps := steps - 1;
    }
  }

  /** Where the stream stands: what it yielded, what it buffered and what is to come make up its
      content, and the throttler counts exactly what it yielded. */
  ghost predicate Standing(content: Bytes, before: int, stream: Stream, buffer: Bytes, rest: Bytes, t: Transfer,
                           chunkSize: int) {
    && Flatten(stream.pieces) + buffer + rest == content
    && t.bytesTransferred == before + |Flatten(stream.pieces)|
    && before + |content| <= t.totalBytes
    && WithinGrants(stream, chunkSize)
  }

  lemma StandingStep(content: Bytes, before: int, stream: Stream, buffer: Bytes, rest: Bytes, t: Transfer, t': Transfer,
                     chunkSize: int, size: nat, grant: int)
    requires Standing(content, before, stream, buffer, rest, t, chunkSize)
    requires 1 <= size <= |buffer| && size <= chunkSize && size <= grant
    requires t'.totalBytes == t.totalBytes && t'.bytesTransferred == t.bytesTransferred + size
    ensures Standing(content, before, Stream(stream.pieces + [buffer[..size]], stream.grants + [grant]),
                     buffer[size..], rest, t', chunkSize)
  {
    FlattenSnoc(stream.pieces, buffer[..size]);
    assert Flatten(stream.pieces) + buffer + rest == Flatten(stream.pieces) + buffer[..size] + buffer[size..] + rest;
  }

  /** One round of either sending loop: ask for a grant, send that much, report it. */
  method SendRound(throttler: BandwidthThrottler, id: string, chunkSize: nat, buffer: Bytes, stream: Stream,
                   ghost content: Bytes, ghost before: int, ghost rest: Bytes)
    returns (stream': Stream, buffer': Bytes)
    requires throttler.Valid() && id in throttler.transfers && buffer != [] && chunkSize >= 1
    requires Standing(content, before, stream, buffer, rest, throttler.Views()[id], chunkSize)
    modifies throttler, throttler.transfers.Values
    ensures throttler.Valid() && id in throttler.transfers && throttler.transfers[id] == old(throttler.transfers[id])
    ensures forall t :: t in throttler.transfers.Values && t !in old(throttler.transfers.Values) ==> fresh(t)
    ensures Standing(content, before, stream', buffer', rest, throttler.Views()[id], chunkSize)
    ensures |buffer'| < |buffer| && buffer' == buffer[|buffer| - |buffer'|..]
  {
    hide Standing, WithinGrants, Consistent, AllConsistent, CalculatePriority, Grant, RemainingBytes, Flatten;
    StandingRemaining(content, before, stream, buffer, rest, throttler.Views()[id], chunkSize);
    Interleave(throttler, id);
    GrantPositive(throttler.Views(), throttler.bandwidth, id);
    var allowed := throttler.GetAllowedBytes(id, 0.1);
    Interleave(throttler, id);
    if allowed <= 0 {
      assert false;
    }
    var size := Min(Min(|buffer|, allowed), chunkSize);
    ghost var t := throttler.Views()[id];
    throttler.UpdateProgress(id, size);
    StandingStep(content, before, stream, buffer, rest, t, throttler.Views()[id], chunkSize, size, allowed);
    stream', buffer' := Stream(stream.pieces + [buffer[..size]], stream.grants + [allowed]), buffer[size..];
    Interleave(throttler, id);
  }

  lemma StandingRemaining(content: Bytes, before: int, stream: Stream, buffer: Bytes, rest: Bytes, t: Transfer,
                          chunkSize: int)
    requires Standing(content, before, stream, buffer, rest, t, chunkSize)
    ensures |buffer| <= RemainingBytes(t.totalBytes, t.bytesTransferred)
  {
  }

  /** `throttled_iterator` over the chunks of a content iterator that may fail after the last of them:
      in every interleaving with other streams it sends its content in order and unchanged. */
  method ThrottledIterator(throttler: BandwidthThrottler, id: string, chunks: seq<Bytes>, fails: bool, chunkSize: nat)
    returns (stream: Stream)
    requires throttler.Valid() && chunkSize >= 1
    requires id in throttler.transfers
    requires throttler.Views()[id].bytesTransferred + |Flatten(chunks)| <= throttler.Views()[id].totalBytes
    modifies throttler, throttler.transfers.Values
    ensures throttler.Valid() && id !in throttler.transfers
    ensures WithinGrants(stream, chunkSize)
    ensures old(throttler.transfers[id]).bytesTransferred
      == old(throttler.transfers[id].bytesTransferred) + |Flatten(stream.pieces)|
    ensures !fails ==> Flatten(stream.pieces) == Flatten(chunks)
    ensures Flatten(stream.pieces) <= Flatten(chunks)
      && |Flatten(chunks)| - |Flatten(stream.pieces)| < (if fails then chunkSize else 1)
  {
    hide Standing, WithinGrants, Consistent;
    ghost var content, before := Flatten(chunks), throttler.Views()[id].bytesTransferred;
    stream := Stream([], []);
    var buffer: Bytes := [];
    StandingInitial(chunks, before, throttler.Views()[id], chunkSize);
    for k := 0 to |chunks|
      invariant throttler.Valid() && id in throttler.transfers && |buffer| < chunkSize
      invariant throttler.transfers[id] == old(throttler.transfers[id])
      invariant forall t :: t in throttler.transfers.Values && t !in old(throttler.transfers.Values) ==> fresh(t)
      invariant Standing(content, before, stream, buffer, Flatten(chunks[k..]), throttler.Views()[id], chunkSize)
    {
      Interleave(throttler, id);
      StandingBuffer(content, before, stream, buffer, chunks, k, throttler.Views()[id], chunkSize);
      buffer := buffer + chunks[k];
      while |buffer| >= chunkSize
        invariant throttler.Valid() && id in throttler.transfers
          && throttler.transfers[id] == old(throttler.transfers[id])
        invariant forall t :: t in throttler.transfers.Values && t !in old(throttler.transfers.Values) ==> fresh(t)
        invariant Standing(content, before, stream, buffer, Flatten(chunks[k + 1..]), throttler.Views()[id], chunkSize)
        decreases |buffer|
      {
        stream, buffer := SendRound(throttler, id, chunkSize, buffer, stream, content, before,
                                    Flatten(chunks[k + 1..]));
      }
    }
    assert chunks[|chunks|..] == [];
    if !fails {
      while buffer != []
        invariant throttler.Valid() && id in throttler.transfers && |buffer| < chunkSize
        invariant throttler.transfers[id] == old(throttler.transfers[id])
        invariant forall t :: t in throttler.transfers.Values && t !in old(throttler.transfers.Values) ==> fresh(t)
        invariant Standing(content, before, stream, buffer, [], throttler.Views()[id], chunkSize)
        decreases |buffer|
      {
        stream, buffer := SendRound(throttler, id, chunkSize, buffer, stream, content, before, []);
      }
    }
    StandingFinal(content, before, stream, buffer, throttler.Views()[id], chunkSize);
    throttler.UnregisterTransfer(id);
  }

  lemma StandingInitial(chunks: seq<Bytes>, before: int, t: Transfer, chunkSize: int)
    requires t.bytesTransferred == before && before + |Flatten(chunks)| <= t.totalBytes
    ensures Standing(Flatten(chunks), before, Stream([], []), [], Flatten(chunks[0..]), t, chunkSize)
  {
    assert chunks[0..] == chunks;
    assert Flatten<int>([]) == [];
  }

  lemma StandingBuffer(content: Bytes, before: int, stream: Stream, buffer: Bytes, chunks: seq<Bytes>, k: nat,
                       t: Transfer, chunkSize: int)
    requires k < |chunks| && Standing(content, before, stream, buffer, Flatten(chunks[k..]), t, chunkSize)
    ensures Standing(content, before, stream, buffer + chunks[k], Flatten(chunks[k + 1..]), t, chunkSize)
  {
    assert chunks[k..][1..] == chunks[k + 1..];
    assert Flatten(stream.pieces) + buffer + (chunks[k] + Flatten(chunks[k + 1..]))
        == Flatten(stream.pieces) + (buffer + chunks[k]) + Flatten(chunks[k + 1..]);
  }

  lemma StandingFinal(content: Bytes, before: int, stream: Stream, buffer: Bytes, t: Transfer, chunkSize: int)
    requires Standing(content, before, stream, buffer, [], t, chunkSize)
    ensures WithinGrants(stream, chunkSize) && Flatten(stream.pieces) <= content
    ensures |content| == |Flatten(stream.pieces)| + |buffer|
    ensures t.bytesTransferred == before + |Flatten(stream.pieces)|
    ensures buffer == [] ==> Flatten(stream.pieces) == content
  {
    assert Flatten(stream.pieces) + buffer + [] == Flatten(stream.pieces) + buffer;
  }
}
