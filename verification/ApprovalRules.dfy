/** Finding the approval rule that governs an operation (`find_matching_rule`, `_operation_matches`). */
module ApprovalRules {
  import opened Wrappers

  /** A rule's row; `operations` is `None` when its JSON does not parse. */
  datatype Rule = Rule(priority: int, operations: Option<seq<string>>, scopeType: string, scopeId: Option<string>)

  /** What a request is about: the operation, the requester's groups, and the device group, if any. */
  datatype Query = Query(operation: string, userGroups: set<string>, deviceGroup: Option<string>)

  /** An operation pattern: everything, one operation, or all operations under a prefix. */
  ghost predicate Matches(pattern: string, operation: string) {
    || pattern == "*"
    || pattern == operation
    || exists prefix: string, rest: string :: pattern == prefix + ".*" && operation == prefix + "." + rest
  }

  lemma WildcardMatches(pattern: string, operation: string)
    requires |pattern| >= 2 && pattern[|pattern| - 2..] == ".*"
    ensures (pattern[..|pattern| - 2] + "." <= operation)
      <==> exists prefix: string, rest: string :: pattern == prefix + ".*" && operation == prefix + "." + rest
  {
    var stem := pattern[..|pattern| - 2];
    assert pattern == stem + ".*";
    if stem + "." <= operation {
      assert operation == stem + "." + operation[|stem| + 1..];
    }
    if prefix: string, rest: string :| pattern == prefix + ".*" && operation == prefix + "." + rest {
      assert prefix == pattern[..|prefix|] == stem;
    }
  }

  /** `_operation_matches`. */
  method OperationMatches(operation: string, patterns: seq<string>) returns (found: bool)
    ensures found <==> exists i :: 0 <= i < |patterns| && Matches(patterns[i], operation)
  {
    for i := 0 to |patterns|
      invariant forall j :: 0 <= j < i ==> !Matches(patterns[j], operation)
    {
      var pattern := patterns[i];
      if pattern == "*" || pattern == operation {
        return true;
      }
      if |pattern| >= 2 && pattern[|pattern| - 2..] == ".*" {
        WildcardMatches(pattern, operation);
        if pattern[..|pattern| - 2] + "." <= operation {
          return true;
        }
      } else {
        WildcardEnds(pattern, operation);
      }
    }
    return false;
  }

  lemma WildcardEnds(pattern: string, operation: string)
    ensures (exists prefix: string, rest: string :: pattern == prefix + ".*" && operation == prefix + "." + rest)
      ==> |pattern| >= 2 && pattern[|pattern| - 2..] == ".*"
  {
    if prefix: string, rest: string :| pattern == prefix + ".*" && operation == prefix + "." + rest {
      assert pattern[|prefix|..] == ".*";
    }
  }

  predicate InScope(rule: Rule, query: Query) {
    if rule.scopeType == "device_group" then
      query.deviceGroup.Some? && query.deviceGroup.value != "" && rule.scopeId == query.deviceGroup
    else if rule.scopeType == "user_group" then
      rule.scopeId.Some? && rule.scopeId.value in query.userGroups
    else rule.scopeType == "global"
  }

  /** Whom a rule of each scope is for: the requests on its device group, those of the members of its user group, all
      of them, or none. */
  lemma ScopeCases(rule: Rule, operation: string, userGroups: set<string>, device: string)
    ensures rule.scopeType == "global" ==>
      InScope(rule, Query(operation, userGroups, None)) && InScope(rule, Query(operation, userGroups, Some(device)))
    ensures rule.scopeType == "device_group" ==>
      && !InScope(rule, Query(operation, userGroups, None))
      && (InScope(rule, Query(operation, userGroups, Some(device))) <==> device != "" && rule.scopeId == Some(device))
    ensures rule.scopeType == "user_group" ==>
      && (InScope(rule, Query(operation, userGroups, None)) <==>
            exists group :: group in userGroups && rule.scopeId == Some(group))
      && (InScope(rule, Query(operation, userGroups, Some(device))) <==>
            InScope(rule, Query(operation, userGroups, None)))
    ensures rule.scopeType !in {"global", "device_group", "user_group"} ==>
      !InScope(rule, Query(operation, userGroups, None)) && !InScope(rule, Query(operation, userGroups, Some(device)))
  {
    if rule.scopeType == "user_group" && rule.scopeId.Some? && rule.scopeId.value in userGroups {
      assert rule.scopeId == Some(rule.scopeId.value);
    }
  }

  ghost predicate Governs(rule: Rule, query: Query) {
    && rule.operations.Some?
    && InScope(rule, query)
    && exists i :: 0 <= i < |rule.operations.value| && Matches(rule.operations.value[i], query.operation)
  }

  /** The order of the query: active rules, highest priority first. */
  ghost predicate ByPriority(rules: seq<Rule>) {
    forall i, j :: 0 <= i < j < |rules| ==> rules[i].priority >= rules[j].priority
  }

  /** All places in a list. */
  function Everything(rules: seq<Rule>): (places: set<nat>)
    ensures forall i: nat :: i in places <==> i < |rules|
  {
    if rules == [] then {} else Everything(rules[..|rules| - 1]) + {|rules| - 1}
  }

  /** The first governing rule is the only one found. */
  lemma FoundHere(rules: seq<Rule>, query: Query, i: nat)
    requires i < |rules| && Governs(rules[i], query) && forall j :: 0 <= j < i ==> !Governs(rules[j], query)
    ensures IsFound(rules, Everything(rules), query, i)
    ensures forall other: nat :: IsFound(rules, Everything(rules), query, other) ==> other == i
  {
    hide Governs;
  }

  /** `find_matching_rule` over the rows of its query: the first rule that governs the operation, so
      one of the highest priority among all that do; none only if no rule governs it. */
  method FindMatchingRule(rules: seq<Rule>, query: Query) returns (found: Option<Rule>)
    requires ByPriority(rules)
    ensures found.Some? <==> exists i: nat :: IsFound(rules, Everything(rules), query, i)
    ensures forall i: nat :: IsFound(rules, Everything(rules), query, i) ==> found == Some(rules[i])
    ensures found.None? <==> forall i :: 0 <= i < |rules| ==> !Governs(rules[i], query)
    ensures found.Some? ==>
      exists i :: 0 <= i < |rules| && rules[i] == found.value && Governs(rules[i], query)
        && (forall j :: 0 <= j < i ==> !Governs(rules[j], query))
        && (forall j :: 0 <= j < |rules| && Governs(rules[j], query) ==> rules[j].priority <= found.value.priority)
  {
    for i := 0 to |rules|
      invariant forall j :: 0 <= j < i ==> !Governs(rules[j], query)
    {
      var rule := rules[i];
      if rule.operations.Some? {
        var matches := OperationMatches(query.operation, rule.operations.value);
        if matches {
          if InScope(rule, query) {
            FoundHere(rules, query, i);
          }
          if rule.scopeType == "device_group" {
            if query.deviceGroup.Some? && query.deviceGroup.value != "" && rule.scopeId == query.deviceGroup {
              return Some(rule);
            }
          } else if rule.scopeType == "user_group" {
            if rule.scopeId.Some? && rule.scopeId.value in query.userGroups {
              return Some(rule);
            }
          } else if rule.scopeType == "global" {
            return Some(rule);
          }
        }
      }
    }
    return None;
  }

  // ---------------------------------------------------------------- the documented ranking of scopes

  /** The rank the documentation gives a scope: device groups before user groups before everything. */
  function ScopeRank(rule: Rule): nat {
    if rule.scopeType == "device_group" then 1 else if rule.scopeType == "user_group" then 2 else 3
  }

  /** Device groups rank before user groups, and user groups before the rest. */
  lemma RanksInOrder(device: Rule, user: Rule, general: Rule)
    requires device.scopeType == "device_group" && user.scopeType == "user_group" && general.scopeType == "global"
    ensures ScopeRank(device) < ScopeRank(user) < ScopeRank(general)
  {
  }

  /** The `i`th of the active rules is the one that is found. */
  ghost predicate IsFound(rules: seq<Rule>, active: set<nat>, query: Query, i: nat) {
    && i < |rules| && i in active && Governs(rules[i], query)
    && forall j: nat :: j < i && j in active ==> !Governs(rules[j], query)
  }

  /** No active rule that governs the operation has a better scope than the one found. */
  ghost predicate RankingHolds(rules: seq<Rule>, active: set<nat>, query: Query) {
    forall i: nat, j: nat ::
      IsFound(rules, active, query, i) && j < |rules| && j in active && Governs(rules[j], query) ==>
      ScopeRank(rules[i]) <= ScopeRank(rules[j])
  }

  /** Some governing rule of a better scope stands behind the first governing one. */
  ghost predicate BetterBehind(rules: seq<Rule>, active: set<nat>, query: Query) {
    exists i: nat, j: nat :: i < j < |rules| && j in active && IsFound(rules, active, query, i)
      && Governs(rules[j], query) && ScopeRank(rules[j]) < ScopeRank(rules[i])
  }

  /** For one query, the ranking holds exactly when no governing rule of a better scope has a lower place. */
  lemma RankingHoldsIff(rules: seq<Rule>, active: set<nat>, query: Query)
    ensures RankingHolds(rules, active, query) <==> !BetterBehind(rules, active, query)
  {
    hide Governs, ScopeRank;
    forall i: nat, j: nat | IsFound(rules, active, query, i) && j < |rules| && j in active && Governs(rules[j], query)
        && ScopeRank(rules[j]) < ScopeRank(rules[i])
      ensures BetterBehind(rules, active, query)
    {
      assert i < j;
    }
  }

  /** The concrete case: a global rule of higher priority is found before the rule for the very device
      group, although both govern the operation. */
  lemma ScopeDoesNotRank(operation: string, group: string)
    requires group != ""
    ensures
      var general := Rule(2, Some([operation]), "global", None);
      var specific := Rule(1, Some([operation]), "device_group", Some(group));
      var rules, query := [general, specific], Query(operation, {}, Some(group));
      && ByPriority(rules) && Governs(general, query) && Governs(specific, query)
      && IsFound(rules, {0, 1}, query, 0) && !RankingHolds(rules, {0, 1}, query)
  {
    var general := Rule(2, Some([operation]), "global", None);
    var specific := Rule(1, Some([operation]), "device_group", Some(group));
    var rules, query := [general, specific], Query(operation, {}, Some(group));
    assert [operation][0] == operation && Matches(operation, operation);
    assert Governs(general, query) && Governs(specific, query);
    hide Governs;
    assert rules[0] == general && rules[1] == specific;
    assert IsFound(rules, {0, 1}, query, 0);
  }

  // ---------------------------------------------------------------- a test on the rules alone

  /** Some operation matches both patterns: exactly when one of them, read as an operation, matches the other. */
  ghost predicate PatternsOverlap(left: string, right: string) {
    Matches(left, right) || Matches(right, left)
  }

  lemma MatchesForms(pattern: string, operation: string)
    ensures Matches(pattern, operation) <==>
      || pattern == "*" || pattern == operation
      || (|pattern| >= 2 && pattern[|pattern| - 2..] == ".*" && pattern[..|pattern| - 1] <= operation)
  {
    if |pattern| >= 2 && pattern[|pattern| - 2..] == ".*" {
      WildcardMatches(pattern, operation);
      assert pattern == pattern[..|pattern| - 2] + ".*";
      assert pattern[..|pattern| - 2] + "." == pattern[..|pattern| - 1];
    } else {
      WildcardEnds(pattern, operation);
    }
  }

  lemma PatternsOverlapIff(left: string, right: string)
    ensures PatternsOverlap(left, right) <==> exists operation :: Matches(left, operation) && Matches(right, operation)
  {
    hide Matches;
    MatchesForms(left, left);
    MatchesForms(right, right);
    MatchesForms(left, right);
    MatchesForms(right, left);
    if operation :| Matches(left, operation) && Matches(right, operation) {
      MatchesForms(left, operation);
      MatchesForms(right, operation);
    }
  }

  /** The scope can be met at all. */
  predicate Usable(rule: Rule) {
    if rule.scopeType == "device_group" then rule.scopeId.Some? && rule.scopeId.value != ""
    else if rule.scopeType == "user_group" then rule.scopeId.Some?
    else rule.scopeType == "global"
  }

  /** Both scopes can be met by one request: it has at most one device group. */
  predicate ScopesMeet(left: Rule, right: Rule) {
    && Usable(left) && Usable(right)
    && (left.scopeType == "device_group" && right.scopeType == "device_group" ==> left.scopeId == right.scopeId)
  }

  ghost predicate OperationsMeet(left: seq<string>, right: seq<string>) {
    exists i, j :: 0 <= i < |left| && 0 <= j < |right| && PatternsOverlap(left[i], right[j])
  }

  /** The two rules compete for some request. */
  ghost predicate Compete(left: Rule, right: Rule) {
    && left.operations.Some? && right.operations.Some?
    && ScopesMeet(left, right) && OperationsMeet(left.operations.value, right.operations.value)
  }

  /** Two scopes can be met together exactly when some request is in both. */
  lemma ScopesMeetIff(left: Rule, right: Rule, operation: string)
    ensures ScopesMeet(left, right) <==>
      exists query: Query :: query.operation == operation && InScope(left, query) && InScope(right, query)
  {
    if ScopesMeet(left, right) {
      var groups := (if left.scopeId.Some? then {left.scopeId.value} else {})
        + (if right.scopeId.Some? then {right.scopeId.value} else {});
      var device := if left.scopeType == "device_group" then left.scopeId else right.scopeId;
      var query := Query(operation, groups, device);
      assert InScope(left, query) && InScope(right, query);
    }
  }

  ghost predicate SomeMatches(patterns: seq<string>, operation: string) {
    exists i :: 0 <= i < |patterns| && Matches(patterns[i], operation)
  }

  lemma OperationsMeetIff(left: seq<string>, right: seq<string>)
    ensures OperationsMeet(left, right) <==>
      exists operation :: SomeMatches(left, operation) && SomeMatches(right, operation)
  {
    hide Matches, PatternsOverlap;
    if OperationsMeet(left, right) {
      var i, j :| 0 <= i < |left| && 0 <= j < |right| && PatternsOverlap(left[i], right[j]);
      PatternsOverlapIff(left[i], right[j]);
      var operation :| Matches(left[i], operation) && Matches(right[j], operation);
      assert SomeMatches(left, operation) && SomeMatches(right, operation);
    }
    if operation :| SomeMatches(left, operation) && SomeMatches(right, operation) {
      var i :| 0 <= i < |left| && Matches(left[i], operation);
      var j :| 0 <= j < |right| && Matches(right[j], operation);
      PatternsOverlapIff(left[i], right[j]);
    }
  }

  /** Two rules compete exactly when some request is governed by both. */
  lemma CompeteIff(left: Rule, right: Rule)
    ensures Compete(left, right) <==> exists query :: Governs(left, query) && Governs(right, query)
  {
    hide Matches, InScope, ScopesMeet, OperationsMeet;
    if left.operations.Some? && right.operations.Some? {
      OperationsMeetIff(left.operations.value, right.operations.value);
      if Compete(left, right) {
        var operation :| SomeMatches(left.operations.value, operation)
          && SomeMatches(right.operations.value, operation);
        ScopesMeetIff(left, right, operation);
        var query: Query :| query.operation == operation && InScope(left, query) && InScope(right, query);
        assert Governs(left, query) && Governs(right, query);
      }
      if query :| Governs(left, query) && Governs(right, query) {
        ScopesMeetIff(left, right, query.operation);
        assert SomeMatches(left.operations.value, query.operation)
          && SomeMatches(right.operations.value, query.operation);
      }
    }
  }

  /** A rule stands before a competing one of a better scope. */
  ghost predicate Inverted(rules: seq<Rule>) {
    exists i, j :: 0 <= i < j < |rules| && ScopeRank(rules[j]) < ScopeRank(rules[i]) && Compete(rules[i], rules[j])
  }

  /** The documented ranking holds for every request, whichever of the rules are active, exactly when no rule
      stands before a competing one of a better scope: a test on the rules, made before any request. */
  lemma RankingAlwaysHoldsIff(rules: seq<Rule>)
    ensures (forall active, query :: RankingHolds(rules, active, query)) <==> !Inverted(rules)
  {
    hide Governs, Compete, ScopeRank;
    forall active, query | !RankingHolds(rules, active, query)
      ensures Inverted(rules)
    {
      RankingHoldsIff(rules, active, query);
      var i: nat, j: nat :| i < j < |rules| && j in active && IsFound(rules, active, query, i)
        && Governs(rules[j], query) && ScopeRank(rules[j]) < ScopeRank(rules[i]);
      CompeteIff(rules[i], rules[j]);
    }
    if Inverted(rules) {
      var i, j :| 0 <= i < j < |rules| && ScopeRank(rules[j]) < ScopeRank(rules[i]) && Compete(rules[i], rules[j]);
      CompeteIff(rules[i], rules[j]);
      var query :| Governs(rules[i], query) && Governs(rules[j], query);
      var active: set<nat> := {i, j};
      assert IsFound(rules, active, query, i);
      assert !RankingHolds(rules, active, query);
    }
  }
}
