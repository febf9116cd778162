/** Detecting where the local node cache and the central server disagree after an outage (`conflicts.py`). */
module Conflicts {
  import opened Wrappers
  import opened Sequences
  import opened Ascii

  /** A node as central lists it: an absent MAC is empty, the other fields may be absent. */
  datatype CentralNode = CentralNode(mac: string, id: Option<string>, state: Option<string>, updatedAt: Option<int>)

  datatype CachedNode = CachedNode(mac: string, nodeId: Option<string>, state: string, cachedAt: int)

  datatype Kind = StateMismatch | MissingLocal | MissingCentral

  datatype Finding = Finding(
    mac: string, nodeId: Option<string>, localState: string, centralState: string,
    localUpdatedAt: int, centralUpdatedAt: int, kind: Kind, detectedAt: int)

  /** A finding as stored, under its id. */
  datatype Conflict = Conflict(id: nat, finding: Finding, resolved: bool)

  type Lookup = map<string, CentralNode>

  // ---------------------------------------------------------------- what each node is compared with

  /** Central's nodes by lower-cased MAC: the last of several wins, and nodes without a MAC are skipped. */
  function CentralByMac(nodes: seq<CentralNode>): (m: Lookup)
    ensures "" !in m
    ensures forall mac :: mac in m ==> Lower(m[mac].mac) == mac
    decreases |nodes|
  {
    if nodes == [] then map[]
    else
      var k := |nodes| - 1;
      var m, mac := CentralByMac(nodes[..k]), Lower(nodes[k].mac);
      if mac != "" then m[mac := nodes[k]] else m
  }

  /** `nodes[i]` is the last one central lists under this lower-cased MAC. */
  predicate LastListed(nodes: seq<CentralNode>, i: int, mac: string) {
    && 0 <= i < |nodes| && Lower(nodes[i].mac) == mac
    && forall j :: i < j < |nodes| ==> Lower(nodes[j].mac) != mac
  }

  /** The lookup has every MAC but the empty one under which central lists a node, with the last of them. */
  lemma {:induction false} LastNodeWins(nodes: seq<CentralNode>, mac: string)
    ensures mac in CentralByMac(nodes) <==> mac != "" && exists i :: 0 <= i < |nodes| && Lower(nodes[i].mac) == mac
    ensures forall i :: LastListed(nodes, i, mac) && mac != "" ==>
      mac in CentralByMac(nodes) && CentralByMac(nodes)[mac] == nodes[i]
    decreases |nodes|
  {
    hide Lower;
    if nodes != [] {
      var k := |nodes| - 1;
      var front := nodes[..k];
      LastNodeWins(front, mac);
      forall i | LastListed(nodes, i, mac) && mac != ""
        ensures mac in CentralByMac(nodes) && CentralByMac(nodes)[mac] == nodes[i]
      {
        if i < k {
          assert LastListed(front, i, mac);
        }
      }
      assert forall i :: 0 <= i < k ==> front[i] == nodes[i];
    }
  }

  function Key(cached: CachedNode): string {
    Lower(cached.mac)
  }

  function OrElse<T>(a: Option<T>, default: T): T {
    if a.Some? then a.value else default
  }

  /** `cached.node_id or central.get("id")`. */
  function NodeId(cached: CachedNode, node: CentralNode): Option<string> {
    if cached.nodeId.Some? && cached.nodeId.value != "" then cached.nodeId else node.id
  }

  /** One cached node against what central has under its MAC. */
  function Compare(cached: CachedNode, m: Lookup, now: int): Option<Finding> {
    var mac := Key(cached);
    if mac !in m then
      Some(Finding(mac, cached.nodeId, cached.state, "missing", cached.cachedAt, now, MissingCentral, now))
    else if Some(cached.state) != m[mac].state then
      Some(Finding(mac, NodeId(cached, m[mac]), cached.state, OrElse(m[mac].state, "unknown"),
                   cached.cachedAt, OrElse(m[mac].updatedAt, now), StateMismatch, now))
    else None
  }

  function OnlyCentral(mac: string, node: CentralNode, now: int): Finding {
    Finding(mac, node.id, "missing", OrElse(node.state, "unknown"), now, OrElse(node.updatedAt, now), MissingLocal, now)
  }

  /** The three outcomes for a cached node, with all that is reported. */
  lemma CompareCases(cached: CachedNode, m: Lookup, now: int)
    ensures var mac := Lower(cached.mac);
      && (Compare(cached, m, now) == None <==> mac in m && m[mac].state == Some(cached.state))
      && (mac !in m ==>
            exists f :: Compare(cached, m, now) == Some(f) && f.kind == MissingCentral
              && f.mac == mac && f.nodeId == cached.nodeId && f.localState == cached.state
              && f.centralState == "missing" && f.localUpdatedAt == cached.cachedAt
              && f.centralUpdatedAt == f.detectedAt == now)
      && (mac in m && m[mac].state != Some(cached.state) ==>
            exists f :: Compare(cached, m, now) == Some(f) && f.kind == StateMismatch
              && f.mac == mac && f.localState == cached.state && f.localUpdatedAt == cached.cachedAt
              && f.detectedAt == now && FromCentral(f, m[mac], now)
              && (cached.nodeId.None? || cached.nodeId == Some("") ==> f.nodeId == m[mac].id)
              && (cached.nodeId.Some? && cached.nodeId != Some("") ==> f.nodeId == cached.nodeId))
  {
    var f := Compare(cached, m, now);
    if f.Some? {
      assert f == Some(f.value);
    }
  }

  /** Central's side of a finding: its state, `unknown` if it names none, and its time, now if it names none. */
  predicate FromCentral(f: Finding, node: CentralNode, now: int) {
    && (node.state.Some? ==> f.centralState == node.state.value)
    && (node.state.None? ==> f.centralState == "unknown")
    && (node.updatedAt.Some? ==> f.centralUpdatedAt == node.updatedAt.value)
    && (node.updatedAt.None? ==> f.centralUpdatedAt == now)
  }

  lemma OnlyCentralSays(mac: string, node: CentralNode, now: int)
    ensures var f := OnlyCentral(mac, node, now);
      && f.kind == MissingLocal && f.mac == mac && f.nodeId == node.id && f.localState == "missing"
      && f.localUpdatedAt == f.detectedAt == now && FromCentral(f, node, now)
  {
  }

  /** What is left of the lookup once the MACs of `cached` are taken out. */
  function Remaining(m: Lookup, cached: seq<CachedNode>): (r: Lookup)
    ensures forall mac :: mac in r <==> mac in m && !Cached(cached, mac)
    ensures forall mac :: mac in r ==> r[mac] == m[mac]
    decreases |cached|
  {
    if cached == [] then m
    else
      var k := |cached| - 1;
      CachedSnoc(cached);
      Remaining(m, cached[..k]) - {Key(cached[k])}
  }

  predicate Cached(cached: seq<CachedNode>, mac: string) {
    exists k :: 0 <= k < |cached| && Key(cached[k]) == mac
  }

  lemma CachedSnoc(cached: seq<CachedNode>)
    requires cached != []
    ensures forall mac ::
      Cached(cached, mac) <==> Cached(cached[..|cached| - 1], mac) || Key(cached[|cached| - 1]) == mac
  {
    hide Key;
    var front := cached[..|cached| - 1];
    forall mac | Cached(cached, mac) && Key(cached[|cached| - 1]) != mac
      ensures Cached(front, mac)
    {
      var k :| 0 <= k < |cached| && Key(cached[k]) == mac;
      assert Key(front[k]) == mac;
    }
  }

  function Found(f: Option<Finding>): seq<Finding> {
    if f.Some? then [f.value] else []
  }

  /** The findings of the first loop: each cached node meets only what its predecessors left. */
  function FromCache(m: Lookup, cached: seq<CachedNode>, now: int): seq<Finding>
    decreases |cached|
  {
    if cached == [] then []
    else
      var k := |cached| - 1;
      FromCache(m, cached[..k], now) + Found(Compare(cached[k], Remaining(m, cached[..k]), now))
  }

  lemma FromCacheStep(m: Lookup, cached: seq<CachedNode>, now: int, k: nat)
    requires k < |cached|
    ensures FromCache(m, cached[..k + 1], now)
         == FromCache(m, cached[..k], now) + Found(Compare(cached[k], Remaining(m, cached[..k]), now))
    ensures Remaining(m, cached[..k + 1]) == Remaining(m, cached[..k]) - {Key(cached[k])}
  {
    hide Compare, Cached;
    assert cached[..k + 1][..k] == cached[..k];
  }

  lemma NothingFound(m: Lookup, now: int)
    ensures FromCache(m, [], now) == [] && Remaining(m, []) == m && Findings([]) == []
  {
  }

  predicate DistinctMacs(found: seq<Finding>) {
    forall i, j :: 0 <= i < j < |found| ==> found[i].mac != found[j].mac
  }

  /** The findings of the second loop: every node left over, once, in any order. */
  predicate Leftover(found: seq<Finding>, m: Lookup, now: int) {
    && DistinctMacs(found)
    && (forall i :: 0 <= i < |found| ==>
      found[i].mac in m && found[i] == OnlyCentral(found[i].mac, m[found[i].mac], now))
    && forall mac :: mac in m ==> exists i :: 0 <= i < |found| && found[i].mac == mac
  }

  /** What a check reports for these nodes. */
  predicate Reported(found: seq<Finding>, central: seq<CentralNode>, cached: seq<CachedNode>, now: int) {
    var m := CentralByMac(central);
    var first := FromCache(m, cached, now);
    first <= found && Leftover(found[|first|..], Remaining(m, cached), now)
  }

  // ---------------------------------------------------------------- the check

  function Findings(conflicts: seq<Conflict>): (found: seq<Finding>)
    ensures |found| == |conflicts|
    ensures forall i :: 0 <= i < |found| ==> found[i] == conflicts[i].finding
  {
    seq(|conflicts|, i requires 0 <= i < |conflicts| => conflicts[i].finding)
  }

  /** Ids below `next` are in use; each stored conflict is under its own id. */
  predicate IdsBelow(table: map<nat, Conflict>, next: nat) {
    forall id :: id in table ==> id < next && table[id].id == id
  }

  /** `table` is `before` with exactly `added`, all open and under new ids. */
  predicate Stored(before: map<nat, Conflict>, table: map<nat, Conflict>, added: seq<Conflict>) {
    && (forall i :: 0 <= i < |added| ==> added[i].id !in before && !added[i].resolved)
    && (forall i, j :: 0 <= i < j < |added| ==> added[i].id != added[j].id)
    && (forall i :: 0 <= i < |added| ==> added[i].id in table && table[added[i].id] == added[i])
    && (forall id :: id in before ==> id in table && table[id] == before[id])
    && forall id :: id in table && id !in before ==> exists i :: 0 <= i < |added| && added[i].id == id
  }

  class ConflictDetector {
    var conflicts: map<nat, Conflict>
    var nextId: nat

    constructor ()
      ensures Valid() && conflicts == map[]
    {
      conflicts, nextId := map[], 0;
    }

    ghost predicate Valid()
      reads this
    {
      IdsBelow(conflicts, nextId)
    }

    method MarkConflict(finding: Finding) returns (conflict: Conflict)
      requires Valid()
      modifies this
      ensures Valid() && conflict == Conflict(old(nextId), finding, false) && conflict.id !in old(conflicts)
      ensures conflicts == old(conflicts)[conflict.id := conflict] && nextId > old(nextId)
    {
      conflict := Conflict(nextId, finding, false);
      conflicts := conflicts[conflict.id := conflict];
      nextId := nextId + 1;
    }

    /** `check_conflicts`. */
    method CheckConflicts(central: seq<CentralNode>, cached: seq<CachedNode>, now: int) returns (found: seq<Conflict>)
      requires Valid()
      modifies this
      ensures Valid()
      ensures Reported(Findings(found), central, cached, now)
      ensures Stored(old(conflicts), conflicts, found)
    {
      hide Stored, IdsBelow, Leftover, FromCache, Remaining;
      var centralByMac := BuildLookup(central);
      var rest: Lookup;
      found, rest := CheckCached(centralByMac, cached, now);
      ghost var first := Findings(found);
      found := CheckLeftover(old(conflicts), found, rest, now);
    }

    /** The loop over the cached nodes, which takes each node's MAC out of the lookup. */
    method CheckCached(lookup: Lookup, cached: seq<CachedNode>, now: int) returns (found: seq<Conflict>, rest: Lookup)
      requires Valid()
      modifies this
      ensures Valid() && Stored(old(conflicts), conflicts, found)
      ensures Findings(found) == FromCache(lookup, cached, now) && rest == Remaining(lookup, cached)
    {
      hide Stored, Compare, IdsBelow, Cached, Findings, FromCache, Remaining;
      found, rest := [], lookup;
      StoredNothing(conflicts);
      NothingFound(lookup, now);
      assert cached[..0] == [];
      var k := 0;
      while k < |cached|
        invariant 0 <= k <= |cached|
        invariant Valid() && Stored(old(conflicts), conflicts, found)
        invariant rest == Remaining(lookup, cached[..k])
        invariant Findings(found) == FromCache(lookup, cached[..k], now)
      {
        FromCacheStep(lookup, cached, now, k);
        var finding := Compare(cached[k], rest, now);
        if finding.Some? {
          found := Record(old(conflicts), found, finding.value);
        }
        rest := rest - {Key(cached[k])};
        k := k + 1;
      }
      assert cached[..k] == cached;
    }

    /** The loop over what is left in the lookup. */
    method CheckLeftover(ghost before: map<nat, Conflict>, sofar: seq<Conflict>, lookup: Lookup, now: int)
      returns (found: seq<Conflict>)
      requires Valid() && Stored(before, conflicts, sofar)
      modifies this
      ensures Valid() && Stored(before, conflicts, found)
      ensures Findings(sofar) <= Findings(found) && Leftover(Findings(found)[|sofar|..], lookup, now)
    {
      hide Stored, IdsBelow, Leftover, OnlyCentral, Only, Findings;
      var left := lookup;
      found := sofar;
      ghost var added: seq<Finding>, done: set<string> := [], {};
      LeftoverNothing(lookup, now);
      while left != map[]
        invariant Valid() && Stored(before, conflicts, found)
        invariant left == lookup - done
        invariant Findings(found) == Findings(sofar) + added && Leftover(added, Only(lookup, done), now)
        decreases |left|
      {
        var mac := AnyKey(left);
        LeftoverStep(added, lookup, done, mac, now);
        found := Record(before, found, OnlyCentral(mac, left[mac], now));
        added := added + [OnlyCentral(mac, lookup[mac], now)];
        left, done := left - {mac}, done + {mac};
      }
      OnlyAll(lookup, done);
    }

    method Record(ghost before: map<nat, Conflict>, found: seq<Conflict>, finding: Finding)
      returns (longer: seq<Conflict>)
      requires Valid() && Stored(before, conflicts, found)
      modifies this
      ensures Valid() && Stored(before, conflicts, longer) && Findings(longer) == Findings(found) + [finding]
    {
      hide Stored, IdsBelow;
      ghost var was := conflicts;
      var conflict := MarkConflict(finding);
      longer := found + [conflict];
      StoredOneMore(before, was, found, conflict);
      assert Findings(longer) == Findings(found) + [finding];
    }

    method BuildLookup(central: seq<CentralNode>) returns (centralByMac: Lookup)
      ensures centralByMac == CentralByMac(central)
    {
      centralByMac := map[];
      for k := 0 to |central|
        invariant centralByMac == CentralByMac(central[..k])
      {
        assert central[..k + 1][..k] == central[..k];
        var mac := Lower(central[k].mac);
        if mac != "" {
          centralByMac := centralByMac[mac := central[k]];
        }
      }
      assert central[..|central|] == central;
    }
  }

  lemma StoredOneMore(before: map<nat, Conflict>, table: map<nat, Conflict>, added: seq<Conflict>, conflict: Conflict)
    requires Stored(before, table, added) && conflict.id !in table && !conflict.resolved
    ensures Stored(before, table[conflict.id := conflict], added + [conflict])
  {
    var longer := added + [conflict];
    assert forall i :: 0 <= i < |added| ==> longer[i] == added[i];
    assert longer[|added|] == conflict;
  }

  lemma StoredNothing(table: map<nat, Conflict>)
    ensures Stored(table, table, [])
  {
  }

  /** The part of a lookup with these keys. */
  function Only(m: Lookup, keys: set<string>): Lookup {
    map mac | mac in m && mac in keys :: m[mac]
  }

  lemma OnlyAll(m: Lookup, keys: set<string>)
    requires m - keys == map[]
    ensures Only(m, keys) == m
  {
    assert forall mac :: mac in m && mac !in keys ==> mac in m - keys;
  }

  lemma LeftoverNothing(m: Lookup, now: int)
    ensures Leftover([], Only(m, {}), now)
  {
  }

  method AnyKey(m: Lookup) returns (mac: string)
    requires m != map[]
    ensures mac in m
  {
    assert m.Keys != {};
    mac :| mac in m;
  }

  lemma LeftoverStep(found: seq<Finding>, m: Lookup, done: set<string>, mac: string, now: int)
    requires mac in m && mac !in done && Leftover(found, Only(m, done), now)
    ensures Leftover(found + [OnlyCentral(mac, m[mac], now)], Only(m, done + {mac}), now)
  {
    var longer := found + [OnlyCentral(mac, m[mac], now)];
    forall other | other in Only(m, done + {mac})
      ensures exists i :: 0 <= i < |longer| && longer[i].mac == other
    {
      if other == mac {
        assert longer[|found|].mac == mac;
      } else {
        assert other in Only(m, done);
        var i :| 0 <= i < |found| && found[i].mac == other;
        assert longer[i].mac == other;
      }
    }
  }

  // ---------------------------------------------------------------- exactly the disagreements

  /** The cache by lower-cased MAC. */
  function CacheByMac(cached: seq<CachedNode>): (m: map<string, CachedNode>)
    ensures forall mac :: mac in m <==> Cached(cached, mac)
    ensures forall mac :: mac in m ==> Key(m[mac]) == mac && m[mac] in cached
    decreases |cached|
  {
    if cached == [] then map[]
    else
      var k := |cached| - 1;
      CachedSnoc(cached);
      CacheByMac(cached[..k])[Key(cached[k]) := cached[k]]
  }

  /** How the two maps differ at one MAC. */
  function Disagreement(mac: string, local: map<string, CachedNode>, central: Lookup, now: int): Option<Finding>
    requires mac in local ==> Key(local[mac]) == mac
  {
    if mac in local then Compare(local[mac], central, now)
    else if mac in central then Some(OnlyCentral(mac, central[mac], now))
    else None
  }

  predicate DistinctKeys(cached: seq<CachedNode>) {
    forall j, k :: 0 <= j < k < |cached| ==> Key(cached[j]) != Key(cached[k])
  }

  predicate Has(found: seq<Finding>, mac: string) {
    exists i :: 0 <= i < |found| && found[i].mac == mac
  }

  predicate WellKeyed(local: map<string, CachedNode>) {
    forall mac :: mac in local ==> Key(local[mac]) == mac
  }

  /** Exactly one finding for every MAC on which cache and central disagree, and it says how they do. */
  ghost predicate ExactlyDisagreements(found: seq<Finding>, local: map<string, CachedNode>, m: Lookup, now: int)
    requires WellKeyed(local)
  {
    && DistinctMacs(found)
    && (forall i :: 0 <= i < |found| ==> Disagreement(found[i].mac, local, m, now) == Some(found[i]))
    && forall mac :: Disagreement(mac, local, m, now).Some? ==> Has(found, mac)
  }

  /** The same for the cached MACs alone. */
  ghost predicate ExactOnCache(found: seq<Finding>, local: map<string, CachedNode>, m: Lookup, now: int) {
    && DistinctMacs(found)
    && (forall i :: 0 <= i < |found| ==>
          found[i].mac in local && Compare(local[found[i].mac], m, now) == Some(found[i]))
    && forall mac :: mac in local && Compare(local[mac], m, now).Some? ==> Has(found, mac)
  }

  lemma HasAppend(left: seq<Finding>, right: seq<Finding>, mac: string)
    ensures Has(left + right, mac) <==> Has(left, mac) || Has(right, mac)
  {
    if Has(left, mac) {
      var i :| 0 <= i < |left| && left[i].mac == mac;
      assert (left + right)[i].mac == mac;
    } else if Has(right, mac) {
      var i :| 0 <= i < |right| && right[i].mac == mac;
      assert (left + right)[|left| + i].mac == mac;
    }
  }

  lemma ExtendExact(found: seq<Finding>, local: map<string, CachedNode>, last: CachedNode, m: Lookup, now: int)
    requires ExactOnCache(found, local, m, now) && Key(last) !in local
    ensures ExactOnCache(found + Found(Compare(last, m, now)), local[Key(last) := last], m, now)
  {
    CompareKeepsMac(last, m, now);
    hide Compare, Key, Has;
    var wider, longer := local[Key(last) := last], found + Found(Compare(last, m, now));
    assert Compare(last, m, now).Some? ==> longer[|found|] == Compare(last, m, now).value;
    forall mac | mac in wider && Compare(wider[mac], m, now).Some?
      ensures Has(longer, mac)
    {
      HasAppend(found, Found(Compare(last, m, now)), mac);
      if mac == Key(last) {
        HasOne(Compare(last, m, now).value);
      }
    }
  }

  lemma HasOne(f: Finding)
    ensures Has([f], f.mac)
  {
    assert [f][0] == f;
  }

  lemma CompareKeepsMac(cached: CachedNode, m: Lookup, now: int)
    ensures Compare(cached, m, now).Some? ==> Compare(cached, m, now).value.mac == Key(cached)
  {
  }

  /** What the first loop finds when no two cached nodes share a MAC. */
  lemma {:induction false} FromCacheExact(m: Lookup, cached: seq<CachedNode>, now: int)
    requires DistinctKeys(cached)
    ensures ExactOnCache(FromCache(m, cached, now), CacheByMac(cached), m, now)
    decreases |cached|
  {
    if cached != [] {
      var k := |cached| - 1;
      hide ExactOnCache, Compare;
      FromCacheExact(m, cached[..k], now);
      assert !Cached(cached[..k], Key(cached[k]));
      CompareRemaining(m, cached[..k], cached[k], now);
      ExtendExact(FromCache(m, cached[..k], now), CacheByMac(cached[..k]), cached[k], m, now);
    }
  }

  lemma CompareRemaining(m: Lookup, front: seq<CachedNode>, last: CachedNode, now: int)
    requires !Cached(front, Key(last))
    ensures Compare(last, Remaining(m, front), now) == Compare(last, m, now)
  {
    hide Cached;
  }

  lemma Together(first: seq<Finding>, rest: seq<Finding>, local: map<string, CachedNode>, m: Lookup, now: int)
    requires WellKeyed(local) && ExactOnCache(first, local, m, now) && Leftover(rest, m - local.Keys, now)
    ensures ExactlyDisagreements(first + rest, local, m, now)
  {
    hide Compare, Key, Has, OnlyCentral;
    var found := first + rest;
    assert forall i :: 0 <= i < |found| ==> found[i] == if i < |first| then first[i] else rest[i - |first|];
    assert forall mac :: mac in m - local.Keys ==> Has(rest, mac) by { LeftoverHas(rest, m - local.Keys, now); }
    forall mac | Disagreement(mac, local, m, now).Some?
      ensures Has(found, mac)
    {
      HasAppend(first, rest, mac);
    }
  }

  lemma LeftoverHas(found: seq<Finding>, m: Lookup, now: int)
    requires Leftover(found, m, now)
    ensures forall mac :: mac in m ==> Has(found, mac)
  {
  }

  lemma DistinctIsExact(found: seq<Finding>, central: seq<CentralNode>, cached: seq<CachedNode>, now: int)
    requires Reported(found, central, cached, now) && DistinctKeys(cached)
    ensures ExactlyDisagreements(found, CacheByMac(cached), CentralByMac(central), now)
  {
    hide Cached, ExactOnCache, ExactlyDisagreements, Leftover, CacheByMac, FromCache, DistinctKeys;
    var m, local := CentralByMac(central), CacheByMac(cached);
    var first := FromCache(m, cached, now);
    FromCacheExact(m, cached, now);
    assert found == first + found[|first|..];
    assert Remaining(m, cached) == m - local.Keys;
    Together(first, found[|first|..], local, m, now);
  }

  /** Two cached nodes with one MAC are always reported wrongly: the second one finds nothing in central any more. */
  lemma DuplicateIsMissing(m: Lookup, cached: seq<CachedNode>, now: int, j: nat, k: nat)
    requires j < k < |cached| && Key(cached[j]) == Key(cached[k])
    ensures Compare(cached[k], Remaining(m, cached[..k]), now).Some?
    ensures Compare(cached[k], Remaining(m, cached[..k]), now).value.kind == MissingCentral
    ensures Key(cached[k]) !in m ==> Compare(cached[j], Remaining(m, cached[..j]), now).Some?
  {
    assert cached[..k][j] == cached[j];
  }

  lemma {:induction false} FromCacheGrows(m: Lookup, cached: seq<CachedNode>, now: int, k: nat)
    requires k <= |cached|
    ensures FromCache(m, cached[..k], now) <= FromCache(m, cached, now)
    decreases |cached|
  {
    hide Compare, Remaining;
    if k < |cached| {
      assert cached[..|cached| - 1][..k] == cached[..k];
      FromCacheGrows(m, cached[..|cached| - 1], now, k);
    } else {
      assert cached[..k] == cached;
    }
  }

  /** Where the finding about the `k`-th cached node stands. */
  lemma FindingAt(m: Lookup, cached: seq<CachedNode>, now: int, k: nat)
    requires k < |cached| && Compare(cached[k], Remaining(m, cached[..k]), now).Some?
    ensures |FromCache(m, cached[..k], now)| < |FromCache(m, cached, now)|
    ensures FromCache(m, cached, now)[|FromCache(m, cached[..k], now)|]
         == Compare(cached[k], Remaining(m, cached[..k]), now).value
  {
    hide Compare, Remaining, FromCache;
    FromCacheGrows(m, cached, now, k + 1);
    FromCacheStep(m, cached, now, k);
  }

  /** A duplicate leaves a finding that is not a disagreement, or two findings for one MAC. */
  lemma DuplicateNotExact(found: seq<Finding>, m: Lookup, cached: seq<CachedNode>, now: int, j: nat, k: nat)
    requires FromCache(m, cached, now) <= found
    requires j < k < |cached| && Key(cached[j]) == Key(cached[k])
    ensures found != [] && !ExactlyDisagreements(found, CacheByMac(cached), m, now)
  {
    DuplicateIsMissing(m, cached, now, j, k);
    FindingAt(m, cached, now, k);
    CompareKeepsMac(cached[k], Remaining(m, cached[..k]), now);
    var first, at := FromCache(m, cached, now), |FromCache(m, cached[..k], now)|;
    if Key(cached[k]) in m {
      assert found[at] == first[at];
      MissingIsWrong(found[at], CacheByMac(cached), m, now);
    } else {
      FindingBefore(m, cached, now, j, k);
      CompareKeepsMac(cached[j], Remaining(m, cached[..j]), now);
      var earlier := |FromCache(m, cached[..j], now)|;
      assert found[earlier] == first[earlier] && found[at] == first[at];
      SameMacTwice(found, earlier, at);
    }
  }

  lemma FindingBefore(m: Lookup, cached: seq<CachedNode>, now: int, j: nat, k: nat)
    requires j < k < |cached| && Compare(cached[j], Remaining(m, cached[..j]), now).Some?
    ensures |FromCache(m, cached[..j], now)| < |FromCache(m, cached[..k], now)| <= |FromCache(m, cached, now)|
    ensures FromCache(m, cached, now)[|FromCache(m, cached[..j], now)|]
         == Compare(cached[j], Remaining(m, cached[..j]), now).value
  {
    hide FromCache, Compare, Remaining;
    FindingAt(m, cached, now, j);
    assert cached[..k][..j] == cached[..j];
    FindingAt(m, cached[..k], now, j);
    FromCacheGrows(m, cached, now, k);
  }

  lemma SameMacTwice(found: seq<Finding>, i: nat, j: nat)
    requires i < j < |found| && found[i].mac == found[j].mac
    ensures !DistinctMacs(found)
  {
  }

  lemma MissingIsWrong(f: Finding, local: map<string, CachedNode>, m: Lookup, now: int)
    requires WellKeyed(local) && f.mac in m && f.kind == MissingCentral
    ensures Disagreement(f.mac, local, m, now) != Some(f)
  {
  }

  /** A check reports exactly the disagreements if and only if no two cached nodes share a lower-cased MAC. */
  lemma ExactIff(found: seq<Finding>, central: seq<CentralNode>, cached: seq<CachedNode>, now: int)
    requires Reported(found, central, cached, now)
    ensures ExactlyDisagreements(found, CacheByMac(cached), CentralByMac(central), now) <==> DistinctKeys(cached)
    ensures !DistinctKeys(cached) ==> found != []
  {
    hide ExactlyDisagreements, FromCache, Remaining, Leftover;
    if DistinctKeys(cached) {
      DistinctIsExact(found, central, cached, now);
    } else {
      var j, k :| 0 <= j < k < |cached| && Key(cached[j]) == Key(cached[k]);
      DuplicateNotExact(found, CentralByMac(central), cached, now, j, k);
    }
  }

  /** Both sides hold the same MACs in the same states. */
  ghost predicate Agree(local: map<string, CachedNode>, m: Lookup) {
    local.Keys == m.Keys && forall mac :: mac in local ==> Some(local[mac].state) == m[mac].state
  }

  lemma NoDisagreementIff(local: map<string, CachedNode>, m: Lookup, now: int)
    requires WellKeyed(local)
    ensures Agree(local, m) <==> ExactlyDisagreements([], local, m, now)
  {
    if ExactlyDisagreements([], local, m, now) {
      assert forall mac :: !Has([], mac);
      assert forall mac :: Disagreement(mac, local, m, now) == None;
      forall mac
        ensures mac in local <==> mac in m
        ensures mac in local && mac in m ==> Some(local[mac].state) == m[mac].state
      {
        assert Disagreement(mac, local, m, now) == None;
      }
    }
  }

  /** Nothing is reported exactly when the cached MACs are distinct and the two sides agree. */
  lemma NothingReportedIff(found: seq<Finding>, central: seq<CentralNode>, cached: seq<CachedNode>, now: int)
    requires Reported(found, central, cached, now)
    ensures found == [] <==> DistinctKeys(cached) && Agree(CacheByMac(cached), CentralByMac(central))
  {
    hide Reported, ExactlyDisagreements, DistinctKeys, Agree;
    var local, m := CacheByMac(cached), CentralByMac(central);
    ExactIff(found, central, cached, now);
    NoDisagreementIff(local, m, now);
    if found != [] && ExactlyDisagreements(found, local, m, now) {
      FirstIsDisagreement(found, local, m, now);
    }
  }

  lemma FirstIsDisagreement(found: seq<Finding>, local: map<string, CachedNode>, m: Lookup, now: int)
    requires WellKeyed(local) && found != [] && ExactlyDisagreements(found, local, m, now)
    ensures !ExactlyDisagreements([], local, m, now)
  {
    assert Disagreement(found[0].mac, local, m, now).Some?;
    assert !Has([], found[0].mac);
  }
}
