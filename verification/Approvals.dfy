/** The approval workflow: voting under the four-eye principle, expiry, escalation and cancellation
    (`src/services/approvals.py`). Every request loads an approval, checks what it loaded, and writes
    later; this module has the two halves, and the runs in which no request falls between them. */
module Approvals {
  import opened Wrappers

  datatype Status = Pending | Approved | Rejected | Expired | Cancelled

  datatype Vote = Vote(userId: string, userName: string, vote: string, isEscalation: bool)

  /** An approval's row; times are seconds. */
  datatype Row = Row(
    ruleId: Option<string>,
    requesterId: Option<string>,
    requesterName: string,
    required: int,
    status: Status,
    votes: seq<Vote>,
    expiresAt: int,
    resolvedAt: Option<int>,
    escalatedAt: Option<int>,
    escalationCount: int)

  datatype ApprovalError =
    | BadVote | NotFound | NotPending | HasExpired | OwnRequest | AlreadyVoted | NotRequester | NotDue

  function Count(votes: seq<Vote>, kind: string): nat {
    if votes == [] then 0
    else Count(votes[..|votes| - 1], kind) + (if votes[|votes| - 1].vote == kind then 1 else 0)
  }

  /** What a request wants of one approval. */
  datatype Request = Voting(vote: Vote) | Cancelling(userId: string) | Passing

  // ---------------------------------------------------------------- the check, on the row loaded

  predicate SameVoter(left: Vote, right: Vote) {
    left.userId == right.userId || left.userName == right.userName
  }

  /** The checks of `cast_vote` on a pending approval that has not expired. */
  function Objection(row: Row, vote: Vote): Option<ApprovalError> {
    if vote.userId != "" && row.requesterId == Some(vote.userId) then Some(OwnRequest)
    else if vote.userName == row.requesterName then Some(OwnRequest)
    else if exists i :: 0 <= i < |row.votes| && SameVoter(row.votes[i], vote) then Some(AlreadyVoted)
    else None
  }

  /** The query of `get_expired_approvals`. */
  predicate Due(row: Row, now: int) {
    row.status == Pending && row.expiresAt < now
  }

  /** Why a request goes no further than the row it loaded; a pass just does not list the approval. */
  function Refusal(row: Row, request: Request, now: int): Option<ApprovalError> {
    match request
    case Voting(vote) =>
      if vote.vote != "approve" && vote.vote != "reject" then Some(BadVote)
      else if row.status != Pending then Some(NotPending)
      else if now > row.expiresAt then Some(HasExpired)
      else Objection(row, vote)
    case Cancelling(userId) =>
      if row.status != Pending then Some(NotPending)
      else if row.requesterId != Some(userId) then Some(NotRequester)
      else None
    case Passing => if Due(row, now) then None else Some(NotDue)
  }

  // ---------------------------------------------------------------- the write, on the row then stored

  function Resolve(row: Row, status: Status, now: int): Row {
    row.(status := status, resolvedAt := Some(now))
  }

  /** A recorded vote, and the resolution it may bring. */
  function Record(row: Row, vote: Vote, now: int): (r: Row) {
    var votes := row.votes + [vote];
    if Count(votes, "approve") >= row.required then Resolve(row.(votes := votes), Approved, now)
    else if Count(votes, "reject") >= row.required then Resolve(row.(votes := votes), Rejected, now)
    else row.(votes := votes)
  }

  /** The escalation timeouts of the rules that still exist, in hours. */
  type Timeouts = map<string, int>

  /** `escalate_approval`: the timer restarts only if the rule still exists. */
  function Escalate(row: Row, count: int, timeouts: Timeouts, now: int): Row {
    var escalated := row.(escalatedAt := Some(now), escalationCount := count);
    if row.ruleId.Some? && row.ruleId.value in timeouts
    then escalated.(expiresAt := now + 3600 * timeouts[row.ruleId.value]) else escalated
  }

  /** A request under way: what it loaded, and when it checked that. */
  datatype Session = Session(loaded: Row, request: Request, checked: int)

  /** What a request writes: only the columns it changes, into the row as it is by then. */
  function Write(current: Row, s: Session, timeouts: Timeouts, maxEscalations: int, now: int): Row {
    match s.request
    case Voting(vote) => Record(current, vote, now)
    case Cancelling(_) => Resolve(current, Cancelled, now)
    case Passing =>
      if s.loaded.escalationCount < maxEscalations
      then Escalate(current, s.loaded.escalationCount + 1, timeouts, now) else Resolve(current, Expired, now)
  }

  // ---------------------------------------------------------------- undivided requests

  /** A request that nothing else falls into. */
  datatype Action = Action(request: Request, timeouts: Timeouts, checked: int, now: int)

  /** What a refused request leaves. A vote on an expired approval marks it and raises: the database
      session of a route then rolls the mark back. */
  function Refused(row: Row, error: ApprovalError, now: int, rollback: bool): Row {
    if error == HasExpired && !rollback then Resolve(row, Expired, now) else row
  }

  /** A refusal leaves the row alone, except that a vote on an expired approval marks it, where nothing rolls back. */
  lemma RefusalLeaves(row: Row, error: ApprovalError, now: int, rollback: bool)
    ensures error != HasExpired || rollback ==> Refused(row, error, now, rollback) == row
    ensures error == HasExpired && !rollback ==>
      Refused(row, error, now, rollback) == row.(status := Expired, resolvedAt := Some(now))
  {
  }

  function Apply(row: Row, action: Action, maxEscalations: int, rollback: bool): Row {
    var refusal := Refusal(row, action.request, action.checked);
    if refusal == None then
      Write(row, Session(row, action.request, action.checked), action.timeouts, maxEscalations, action.now)
    else Refused(row, refusal.value, action.now, rollback)
  }

  function Run(row: Row, actions: seq<Action>, maxEscalations: int, rollback: bool): Row {
    if actions == [] then row
    else
      var k := |actions| - 1;
      Apply(Run(row, actions[..k], maxEscalations, rollback), actions[k], maxEscalations, rollback)
  }

  /** How many passes of the run found the approval expired. */
  function TimesMet(row: Row, actions: seq<Action>, maxEscalations: int, rollback: bool): nat {
    if actions == [] then 0
    else
      var before, last := actions[..|actions| - 1], actions[|actions| - 1];
      TimesMet(row, before, maxEscalations, rollback)
        + (if last.request.Passing? && Due(Run(row, before, maxEscalations, rollback), last.checked) then 1 else 0)
  }

  /** A request as `create_approval_request` stores it. */
  predicate IsNew(row: Row) {
    && row.status == Pending && row.votes == [] && row.resolvedAt == None
    && row.escalatedAt == None && row.escalationCount == 0
  }

  /** Nobody votes twice, by id or by name, and nobody votes on their own request. */
  ghost predicate FourEyes(row: Row) {
    && (forall i, j :: 0 <= i < j < |row.votes| ==> !SameVoter(row.votes[i], row.votes[j]))
    && (forall i :: 0 <= i < |row.votes| ==>
          && row.votes[i].userName != row.requesterName
          && (row.votes[i].userId != "" ==> row.requesterId != Some(row.votes[i].userId)))
  }

  /** The votes decide the status: pending and unresolved requests are short of the required votes on both
      sides, approved and rejected ones have exactly the required votes on one side. */
  ghost predicate Decided(row: Row) {
    var approvals, rejections := Count(row.votes, "approve"), Count(row.votes, "reject");
    && approvals + rejections == |row.votes|
    && (row.status == Approved ==> approvals == row.required && rejections < row.required)
    && (row.status == Rejected ==> rejections == row.required && approvals < row.required)
    && (row.status != Approved && row.status != Rejected ==> approvals < row.required && rejections < row.required)
    && (row.resolvedAt.Some? <==> row.status != Pending)
  }

  /** The votes of one kind, by their places. */
  ghost function Places(votes: seq<Vote>, kind: string): set<nat> {
    set i: nat | i < |votes| && votes[i].vote == kind
  }

  lemma {:induction false} CountIsSize(votes: seq<Vote>, kind: string)
    ensures Count(votes, kind) == |Places(votes, kind)|
  {
    if votes == [] {
      assert Places(votes, kind) == {};
    } else {
      var n := |votes| - 1;
      var front := votes[..n];
      CountIsSize(front, kind);
      assert Places(votes, kind) == Places(front, kind) + (if votes[n].vote == kind then {n} else {});
    }
  }

  /** On a pending approval, a well-formed vote is refused as expired exactly at the times at which a pass picks the
      approval up: those after it expires. */
  lemma ExpiredWhenDue(row: Row, vote: Vote, now: int)
    requires row.status == Pending && (vote.vote == "approve" || vote.vote == "reject")
    ensures Refusal(row, Voting(vote), now) == Some(HasExpired) <==> row.expiresAt < now
    ensures Refusal(row, Passing, now) == None <==> row.expiresAt < now
  {
  }

  /** Which votes and cancellations go through, by the fields of the row. */
  lemma AcceptedIff(row: Row, vote: Vote, userId: string, now: int)
    ensures Refusal(row, Voting(vote), now) == None <==>
      && (vote.vote == "approve" || vote.vote == "reject") && row.status == Pending && now <= row.expiresAt
      && (vote.userId == "" || row.requesterId != Some(vote.userId)) && vote.userName != row.requesterName
      && forall i :: 0 <= i < |row.votes| ==>
           row.votes[i].userId != vote.userId && row.votes[i].userName != vote.userName
    ensures Refusal(row, Cancelling(userId), now) == None <==> row.status == Pending && row.requesterId == Some(userId)
  {
    assert (exists i :: 0 <= i < |row.votes| && SameVoter(row.votes[i], vote)) <==>
      exists i :: 0 <= i < |row.votes| &&
        (row.votes[i].userId == vote.userId || row.votes[i].userName == vote.userName);
  }

  /** An escalation counts itself and, while the rule exists, gives the voters its timeout in hours. */
  lemma EscalationRestarts(row: Row, count: int, timeouts: Timeouts, now: int, later: int)
    ensures var escalated := Escalate(row, count, timeouts, now);
      && escalated.escalationCount == count && escalated.escalatedAt == Some(now) && escalated.status == row.status
      && (row.status == Pending ==>
            (Due(escalated, later) <==>
               later > if row.ruleId.Some? && row.ruleId.value in timeouts
                       then now + 60 * 60 * timeouts[row.ruleId.value] else row.expiresAt))
  {
  }

  /** A vote decides exactly when the votes of its kind, with it, reach the number required. */
  lemma VoteDecidesIff(row: Row, vote: Vote, now: int)
    requires Decided(row) && row.status == Pending && (vote.vote == "approve" || vote.vote == "reject")
    ensures var after, approvals, rejections := Record(row, vote, now),
        |Places(row.votes + [vote], "approve")|, |Places(row.votes + [vote], "reject")|;
      && after.votes == row.votes + [vote]
      && (after.status == Approved <==> approvals >= row.required)
      && (after.status == Rejected <==> rejections >= row.required)
      && (after.status == Pending <==> approvals < row.required && rejections < row.required)
      && (after.status != Pending <==> Complete(after.votes, row.required))
      && after.resolvedAt == (if after.status == Pending then None else Some(now))
  {
    CountIsSize(row.votes + [vote], "approve");
    CountIsSize(row.votes + [vote], "reject");
    CountNext(row.votes, vote, "approve");
    CountNext(row.votes, vote, "reject");
    hide Count, Places;
  }

  lemma CountNext(votes: seq<Vote>, vote: Vote, kind: string)
    ensures Count(votes + [vote], kind) == Count(votes, kind) + (if vote.vote == kind then 1 else 0)
  {
    assert (votes + [vote])[..|votes|] == votes;
  }

  lemma RecordFourEyes(row: Row, vote: Vote, now: int)
    requires FourEyes(row) && Objection(row, vote) == None
    ensures FourEyes(Record(row, vote, now))
  {
    hide Count;
    var votes := Record(row, vote, now).votes;
    assert votes == row.votes + [vote];
    forall i, j | 0 <= i < j < |votes|
      ensures !SameVoter(votes[i], votes[j])
    {
    }
  }

  lemma RecordDecided(row: Row, vote: Vote, now: int)
    requires Decided(row) && row.status == Pending && (vote.vote == "approve" || vote.vote == "reject")
    ensures Decided(Record(row, vote, now))
  {
    CountNext(row.votes, vote, "approve");
    CountNext(row.votes, vote, "reject");
    hide Count;
  }

  /** Every undivided request keeps both invariants, and a resolved approval never changes again. */
  lemma ApplyKeeps(row: Row, action: Action, maxEscalations: int, rollback: bool)
    requires FourEyes(row) && Decided(row)
    ensures FourEyes(Apply(row, action, maxEscalations, rollback))
    ensures Decided(Apply(row, action, maxEscalations, rollback))
    ensures row.status != Pending ==> Apply(row, action, maxEscalations, rollback) == row
    ensures Apply(row, action, maxEscalations, rollback).required == row.required
  {
    if action.request.Voting? && Refusal(row, action.request, action.checked) == None {
      RecordFourEyes(row, action.request.vote, action.now);
      RecordDecided(row, action.request.vote, action.now);
      hide FourEyes, Decided, Objection;
    } else {
      hide Record, Objection, Count;
    }
  }

  /** Votes that decide a request needing at least one are fewer than twice the required number. */
  lemma DecidedBound(row: Row)
    requires Decided(row) && row.required >= 1
    ensures |row.votes| <= 2 * row.required - 1
  {
  }

  /** On every run of undivided votes, expiries, escalations and cancellations of a request that needs at least
      one vote, both invariants hold and there are at most twice the required votes less one. */
  lemma {:induction false} RunKeeps(row: Row, actions: seq<Action>, maxEscalations: int, rollback: bool)
    requires IsNew(row) && row.required >= 1
    ensures var r := Run(row, actions, maxEscalations, rollback);
      FourEyes(r) && Decided(r) && r.required == row.required && |r.votes| <= 2 * row.required - 1
  {
    if actions != [] {
      var before := Run(row, actions[..|actions| - 1], maxEscalations, rollback);
      RunKeeps(row, actions[..|actions| - 1], maxEscalations, rollback);
      hide FourEyes, Apply;
      ApplyKeeps(before, actions[|actions| - 1], maxEscalations, rollback);
    }
  }

  lemma ResolvedStays(row: Row, action: Action, maxEscalations: int, rollback: bool)
    requires row.status != Pending
    ensures Apply(row, action, maxEscalations, rollback) == row
  {
    hide Objection, Count;
  }

  lemma RunSnoc(row: Row, actions: seq<Action>, action: Action, maxEscalations: int, rollback: bool)
    ensures Run(row, actions + [action], maxEscalations, rollback)
         == Apply(Run(row, actions, maxEscalations, rollback), action, maxEscalations, rollback)
  {
    hide Apply;
    assert (actions + [action])[..|actions|] == actions;
  }

  /** Once resolved, an approval stays as it is whatever undivided requests follow. */
  lemma {:induction false} ResolvedForGood(row: Row, actions: seq<Action>, more: seq<Action>, maxEscalations: int,
                                           rollback: bool)
    requires Run(row, actions, maxEscalations, rollback).status != Pending
    ensures Run(row, actions + more, maxEscalations, rollback) == Run(row, actions, maxEscalations, rollback)
    decreases |more|
  {
    hide Run, Apply;
    if more == [] {
      assert actions + more == actions;
    } else {
      var front, last := more[..|more| - 1], more[|more| - 1];
      assert actions + more == actions + front + [last];
      ResolvedForGood(row, actions, front, maxEscalations, rollback);
      RunSnoc(row, actions + front, last, maxEscalations, rollback);
      ResolvedStays(Run(row, actions + front, maxEscalations, rollback), last, maxEscalations, rollback);
    }
  }

  /** With no required votes the counting fails: a vote against a new request approves it, and it
      does so exactly when no vote is required. */
  lemma VoteAgainstApprovesIff(row: Row, action: Action, maxEscalations: int, rollback: bool)
    requires IsNew(row) && action.request.Voting? && action.request.vote.vote == "reject"
    requires action.checked <= row.expiresAt && Objection(row, action.request.vote) == None
    ensures Apply(row, action, maxEscalations, rollback).status == Approved <==> row.required <= 0
  {
    CountNext([], action.request.vote, "approve");
    CountNext([], action.request.vote, "reject");
    assert [] + [action.request.vote] == [action.request.vote];
  }

  /** A requester's own vote is refused by id or by name; an empty id is not compared, so there the name decides. */
  lemma OwnVoteRefusedIff(row: Row, vote: Vote)
    requires row.requesterId == Some(vote.userId)
    ensures Objection(row, vote) == Some(OwnRequest) <==> vote.userId != "" || vote.userName == row.requesterName
  {
  }

  /** The job is bounded: the approval is escalated once for each pass that finds it expired while it
      stays pending, never more than the limit, and the pass after the last escalation resolves it. */
  lemma {:induction false} EscalationsBounded(row: Row, actions: seq<Action>, maxEscalations: nat, rollback: bool)
    requires IsNew(row)
    ensures var r, met := Run(row, actions, maxEscalations, rollback), TimesMet(row, actions, maxEscalations, rollback);
      && 0 <= r.escalationCount <= maxEscalations
      && met <= maxEscalations + 1
      && (r.status == Pending ==> met == r.escalationCount)
      && (met == maxEscalations + 1 ==> r.status != Pending)
  {
    hide Objection;
    if actions != [] {
      EscalationsBounded(row, actions[..|actions| - 1], maxEscalations, rollback);
    }
  }

  // ---------------------------------------------------------------- the stored objects

  /** What other requests may have made of a row: votes are never taken away, and its origin is fixed. */
  predicate Later(before: Row, after: Row) {
    && before.votes <= after.votes
    && before.ruleId == after.ruleId && before.requesterId == after.requesterId
    && before.requesterName == after.requesterName && before.required == after.required
  }

  class Approval {
    const ruleId: Option<string>
    const requesterId: Option<string>
    const requesterName: string
    const required: int
    var status: Status
    var votes: seq<Vote>
    var expiresAt: int
    var resolvedAt: Option<int>
    var escalatedAt: Option<int>
    var escalationCount: int

    constructor (ruleId: Option<string>, requesterId: Option<string>, requesterName: string, required: int,
                 expiresAt: int)
      ensures View() == Row(ruleId, requesterId, requesterName, required, Pending, [], expiresAt, None, None, 0)
    {
      this.ruleId, this.requesterId, this.requesterName, this.required := ruleId, requesterId, requesterName, required;
      this.expiresAt := expiresAt;
      status, votes, resolvedAt, escalatedAt, escalationCount := Pending, [], None, None, 0;
    }

    function View(): Row
      reads this
    {
      Row(ruleId, requesterId, requesterName, required, status, votes, expiresAt, resolvedAt, escalatedAt,
          escalationCount)
    }

    /** The other requests that commit during an await: any number of votes, and any change of the other columns. */
    method Interleave() returns (ghost idle: bool)
      modifies this
      ensures Later(old(View()), View())
      ensures idle ==> View() == old(View())
    {
      idle := true;
      var steps: nat := *;
      while steps > 0
        invariant Later(old(View()), View())
        invariant idle ==> View() == old(View())
      {
        var vote: Vote := *;
        votes := votes + [vote];
        steps, idle := steps - 1, false;
      }
      if * {
        status, expiresAt, resolvedAt, escalatedAt, escalationCount := *, *, *, *, *;
        idle := false;
      }
    }

    /** The checks of `cast_vote` on the approval it has just loaded. */
    method CheckVote(vote: Vote, now: int) returns (refusal: Option<ApprovalError>)
      requires vote.vote == "approve" || vote.vote == "reject"
      ensures refusal == Refusal(View(), Voting(vote), now)
    {
      if status != Pending {
        return Some(NotPending);
      }
      if now > expiresAt {
        return Some(HasExpired);
      }
      if vote.userId != "" && requesterId == Some(vote.userId) {
        return Some(OwnRequest);
      }
      if vote.userName == requesterName {
        return Some(OwnRequest);
      }
      var voted := HasVoted(votes, vote);
      return if voted then Some(AlreadyVoted) else None;
    }

    /** `cast_vote` once the vote is known to be well-formed and the approval to exist. `current` is the
        row its vote meets, after the requests that committed since it loaded the approval. */
    method Cast(vote: Vote, checked: int, now: int, rollback: bool)
      returns (r: Result<bool, ApprovalError>, ghost current: Row, ghost idle: bool)
      requires vote.vote == "approve" || vote.vote == "reject"
      modifies this
      ensures Later(old(View()), current) && (idle ==> current == old(View()))
      ensures r.Err? <==> Refusal(old(View()), Voting(vote), checked).Some?
      ensures r.Err? ==> Refusal(old(View()), Voting(vote), checked) == Some(r.error)
      ensures r.Err? ==> View() == Refused(old(View()), r.error, now, rollback)
      ensures r.Ok? ==> View() == Record(current, vote, now)
      ensures r.Ok? ==> (r.value <==> Complete(current.votes + [vote], required))
      ensures idle ==> View() == Apply(old(View()), Action(Voting(vote), map[], checked, now), 0, rollback)
    {
      hide Count, Record, Objection;
      current, idle := View(), true;
      var refusal := CheckVote(vote, checked);
      if refusal.Some? {
        if refusal.value == HasExpired && !rollback {
          status := Expired;
          resolvedAt := Some(now);
        }
        return Err(refusal.value), current, idle;
      }
      idle := Interleave();
      current := View();
      var isComplete := RecordVote(vote, now);
      r := Ok(isComplete);
    }

    /** The inserting, counting and resolving end of `cast_vote`. */
    method RecordVote(vote: Vote, now: int) returns (isComplete: bool)
      modifies this
      ensures View() == Record(old(View()), vote, now)
      ensures isComplete <==> Complete(old(votes) + [vote], required)
    {
      hide Count;
      votes := votes + [vote];
      var approveCount := CountVotes(votes, "approve");
      var rejectCount := CountVotes(votes, "reject");
      isComplete := false;
      if approveCount >= required {
        status := Approved;
        resolvedAt := Some(now);
        isComplete := true;
      } else if rejectCount >= required {
        status := Rejected;
        resolvedAt := Some(now);
        isComplete := true;
      }
    }

    /** `escalate_approval` of an approval that was loaded with this many escalations. */
    method EscalateNow(loadedCount: int, timeouts: Timeouts, now: int)
      modifies this
      ensures View() == Escalate(old(View()), loadedCount + 1, timeouts, now)
    {
      escalatedAt := Some(now);
      escalationCount := loadedCount + 1;
      if ruleId.Some? && ruleId.value in timeouts {
        expiresAt := now + 3600 * timeouts[ruleId.value];
      }
    }
  }

  predicate Complete(votes: seq<Vote>, required: int) {
    Count(votes, "approve") >= required || Count(votes, "reject") >= required
  }

  method CountVotes(votes: seq<Vote>, kind: string) returns (n: nat)
    ensures n == Count(votes, kind)
  {
    n := 0;
    for i := 0 to |votes|
      invariant n == Count(votes[..i], kind)
    {
      assert votes[..i + 1][..i] == votes[..i];
      if votes[i].vote == kind {
        n := n + 1;
      }
    }
    assert votes[..|votes|] == votes;
  }

  method HasVoted(votes: seq<Vote>, vote: Vote) returns (voted: bool)
    ensures voted <==> exists i :: 0 <= i < |votes| && SameVoter(votes[i], vote)
  {
    for i := 0 to |votes|
      invariant forall j :: 0 <= j < i ==> !SameVoter(votes[j], vote)
    {
      if votes[i].userId == vote.userId || votes[i].userName == vote.userName {
        assert SameVoter(votes[i], vote);
        return true;
      }
    }
    return false;
  }

  class ApprovalStore {
    var approvals: map<string, Approval>
    var timeouts: Timeouts

    constructor ()
      ensures approvals == map[] && timeouts == map[]
    {
      approvals, timeouts := map[], map[];
    }

    /** `cast_vote`. */
    method CastVoteOn(id: string, vote: Vote, checked: int, now: int, rollback: bool)
      returns (r: Result<bool, ApprovalError>, ghost current: Option<Row>)
      modifies approvals.Values
      ensures vote.vote != "approve" && vote.vote != "reject" ==> r == Err(BadVote)
      ensures (vote.vote == "approve" || vote.vote == "reject") && id !in approvals ==> r == Err(NotFound)
      ensures r.Err? && id in approvals ==> Refusal(old(approvals[id].View()), Voting(vote), checked) == Some(r.error)
      ensures r.Err? && id in approvals ==>
        approvals[id].View() == Refused(old(approvals[id].View()), r.error, now, rollback)
      ensures r.Ok? ==> id in approvals && current.Some? && Later(old(approvals[id].View()), current.value)
      ensures r.Ok? ==> approvals[id].View() == Record(current.value, vote, now)
      ensures forall a :: a in approvals.Values && (id !in approvals || a != approvals[id]) ==>
        a.View() == old(a.View())
    {
      current := None;
      if vote.vote != "approve" && vote.vote != "reject" {
        return Err(BadVote), None;
      }
      if id !in approvals {
        return Err(NotFound), None;
      }
      hide Record, Objection, Later;
      ghost var met, idle;
      r, met, idle := approvals[id].Cast(vote, checked, now, rollback);
      current := Some(met);
    }

    /** `cancel_approval`; `current` is the row the cancellation meets. */
    method CancelOne(id: string, userId: string, now: int)
      returns (r: Result<(), ApprovalError>, ghost current: Option<Row>, ghost idle: bool)
      modifies approvals.Values
      ensures id !in approvals ==> r == Err(NotFound)
      ensures id in approvals ==> (r.Err? <==> Refusal(old(approvals[id].View()), Cancelling(userId), now).Some?)
      ensures id in approvals && r.Err? ==>
        && Refusal(old(approvals[id].View()), Cancelling(userId), now) == Some(r.error)
        && approvals[id].View() == old(approvals[id].View())
      ensures r.Ok? ==> id in approvals && current.Some? && Later(old(approvals[id].View()), current.value)
      ensures r.Ok? ==> approvals[id].View() == Resolve(current.value, Cancelled, now)
      ensures r.Ok? && idle ==> current.value == old(approvals[id].View())
      ensures forall a :: a in approvals.Values && (id !in approvals || a != approvals[id]) ==>
        a.View() == old(a.View())
    {
      current, idle := None, true;
      if id !in approvals {
        return Err(NotFound), None, true;
      }
      var approval := approvals[id];
      if approval.status != Pending {
        return Err(NotPending), None, true;
      }
      if approval.requesterId != Some(userId) {
        return Err(NotRequester), None, true;
      }
      idle := approval.Interleave();
      current := Some(approval.View());
      approval.status := Cancelled;
      approval.resolvedAt := Some(now);
      r := Ok(());
    }

    /** The loop body of `process_expired_approvals` for an approval listed with this many escalations. */
    method ProcessOne(approval: Approval, loadedCount: int, maxEscalations: int, now: int) returns (escalated: bool)
      modifies approval
      ensures approval.View() == Updated(old(approval.View()), loadedCount, timeouts, maxEscalations, now)
      ensures escalated <==> loadedCount < maxEscalations
    {
      if loadedCount < maxEscalations {
        approval.EscalateNow(loadedCount, timeouts, now);
        return true;
      }
      approval.status := Expired;
      approval.resolvedAt := Some(now);
      return false;
    }

    /** Other requests on any of the approvals during one await of a pass. */
    method InterleaveAll(all: set<Approval>) returns (ghost idle: bool)
      modifies all
      ensures forall a :: a in all ==> Later(old(a.View()), a.View())
      ensures idle ==> forall a :: a in all ==> a.View() == old(a.View())
    {
      hide Later;
      LaterItself();
      idle := true;
      var left := all;
      while left != {}
        invariant left <= all
        invariant forall a :: a in left ==> a.View() == old(a.View())
        invariant forall a :: a in all ==> Later(old(a.View()), a.View())
        invariant idle ==> forall a :: a in all ==> a.View() == old(a.View())
      {
        var approval :| approval in left;
        ghost var alone := approval.Interleave();
        left, idle := left - {approval}, idle && alone;
      }
    }

    /** One turn of the loop of `process_expired_approvals`, with the awaits before its update. */
    method ProcessNext(listed: map<Approval, int>, left: set<Approval>, approval: Approval, maxEscalations: int,
                       now: int, ghost start: map<Approval, Row>, ghost sofar: map<Approval, Note>, ghost was: bool)
      returns (escalated: bool, ghost notes: map<Approval, Note>, ghost idle: bool)
      requires approval in left && left <= listed.Keys
      requires PassStands(start, Views(listed.Keys), left, sofar, listed, timeouts, maxEscalations, now, was)
      modifies listed.Keys
      ensures PassStands(start, Views(listed.Keys), left - {approval}, notes, listed, timeouts, maxEscalations, now,
                         idle)
      ensures escalated <==> listed[approval] < maxEscalations
    {
      hide Later, Updated, PassStands;
      ghost var before := Views(listed.Keys);
      idle := InterleaveAll(listed.Keys);
      idle := was && idle;
      ghost var met := Views(listed.Keys);
      PassInterleaved(start, before, met, left, sofar, listed, timeouts, maxEscalations, now, was, idle);
      escalated := ProcessOne(approval, listed[approval], maxEscalations, now);
      PassUpdated(start, met, left, sofar, listed, timeouts, maxEscalations, now, idle, approval);
      notes := sofar[approval := Note(met[approval], approval.View())];
      assert Views(listed.Keys) == met[approval := approval.View()];
    }

    /** The loop of `process_expired_approvals` over the approvals listed, each as it was loaded. */
    method ProcessListed(listed: map<Approval, int>, maxEscalations: int, now: int)
      returns (escalated: nat, rejected: nat, ghost notes: map<Approval, Note>, ghost idle: bool)
      modifies listed.Keys
      ensures PassStands(old(Views(listed.Keys)), Views(listed.Keys), {}, notes, listed, timeouts, maxEscalations, now,
                         idle)
      ensures escalated == |Below(listed, maxEscalations)| && escalated + rejected == |listed|
    {
      hide Later, Below, PassStands;
      var left := listed.Keys;
      escalated, rejected, notes, idle := 0, 0, map[], true;
      ghost var start := Views(listed.Keys);
      PassStarts(start, listed, timeouts, maxEscalations, now);
      BelowNone(listed, maxEscalations);
      while left != {}
        invariant left <= listed.Keys
        invariant PassStands(start, Views(listed.Keys), left, notes, listed, timeouts, maxEscalations, now, idle)
        invariant escalated == |Below(listed - left, maxEscalations)|
        invariant escalated + rejected == |listed.Keys| - |left|
        decreases left
      {
        var approval :| approval in left;
        var up;
        up, notes, idle := ProcessNext(listed, left, approval, maxEscalations, now, start, notes, idle);
        BelowNext(listed, left, approval, maxEscalations);
        left := left - {approval};
        if up {
          escalated := escalated + 1;
        } else {
          rejected := rejected + 1;
        }
      }
      assert listed - {} == listed;
    }

    /** The approvals that `get_expired_approvals` lists, with the escalations it loads. */
    function Listed(now: int): map<Approval, int>
      reads this, approvals.Values
    {
      map a | a in approvals.Values && Due(a.View(), now) :: a.escalationCount
    }

    /** The listing and the loop of `process_expired_approvals`. */
    method ProcessDue(maxEscalations: int, checked: int, now: int)
      returns (escalated: nat, rejected: nat, ghost notes: map<Approval, Note>, ghost idle: bool)
      modifies approvals.Values
      ensures escalated == |Below(old(Listed(checked)), maxEscalations)|
      ensures escalated + rejected == |old(Listed(checked))|
      ensures notes.Keys == old(Listed(checked)).Keys
      ensures forall a :: a in approvals.Values && a !in old(Listed(checked)) ==> a.View() == old(a.View())
      ensures forall a :: a in old(Listed(checked)) ==>
        a in notes && PassedOn(old(a.View()), a.View(), notes[a], timeouts, maxEscalations, checked, now, idle)
    {
      var listed := Listed(checked);
      ghost var start := Views(listed.Keys);
      assert forall a :: a in listed ==> Due(start[a], checked) && listed[a] == start[a].escalationCount;
      hide Due, Below, PassStands, PassedOn, Listed;
      escalated, rejected, notes, idle := ProcessListed(listed, maxEscalations, now);
      PassEnds(start, Views(listed.Keys), notes, listed, timeouts, maxEscalations, checked, now, idle);
    }

    /** What the query of a pass selects, by the stored fields. */
    lemma ListedFields(checked: int, maxEscalations: int)
      ensures Listed(checked).Keys == set a | a in approvals.Values && a.status == Pending && a.expiresAt < checked
      ensures Below(Listed(checked), maxEscalations)
           == set a | a in Listed(checked).Keys && a.escalationCount < maxEscalations
    {
    }

    /** `process_expired_approvals`: the due approvals are listed first and then updated one by one. */
    method ProcessExpired(maxEscalations: int, checked: int, now: int)
      returns (escalated: nat, rejected: nat, ghost notes: map<Approval, Note>, ghost idle: bool)
      modifies approvals.Values
      ensures escalated == |Below(old(Listed(checked)), maxEscalations)|
      ensures escalated + rejected == |old(Listed(checked))|
      ensures forall a :: a in approvals.Values && a !in old(Listed(checked)) ==> a.View() == old(a.View())
      ensures forall a :: a in old(Listed(checked)) ==>
        a in notes && PassedOn(old(a.View()), a.View(), notes[a], timeouts, maxEscalations, checked, now, idle)
      // A pass takes exactly the approvals that were pending and expired before it looked, and counts them.
      ensures notes.Keys == set a | a in approvals.Values && old(a.status) == Pending && old(a.expiresAt) < checked
      ensures escalated == |set a | a in notes.Keys && old(a.escalationCount) < maxEscalations|
      ensures escalated + rejected == |notes.Keys|
      ensures forall a :: a in approvals.Values && (old(a.status) != Pending || checked <= old(a.expiresAt)) ==>
        a.View() == old(a.View())
      // Without other requests, those below the limit are escalated and the others expire.
      ensures idle ==> forall a :: a in notes ==> PassOutcome(old(a.View()), a.View(), timeouts, maxEscalations, now)
    {
      hide Below, PassedOn, Listed, PassOutcome;
      ListedFields(checked, maxEscalations);
      escalated, rejected, notes, idle := ProcessDue(maxEscalations, checked, now);
      assert |notes.Keys| == |notes|;
      if idle {
        forall a | a in notes
          ensures PassOutcome(old(a.View()), a.View(), timeouts, maxEscalations, now)
        {
          PassedIdle(old(a.View()), a.View(), notes[a], timeouts, maxEscalations, checked, now);
        }
      }
    }
  }

  /** What an undisturbed pass makes of an approval it takes: one more escalation with a new timer, or the end. */
  ghost predicate PassOutcome(start: Row, row: Row, timeouts: Timeouts, maxEscalations: int, now: int) {
    && row.votes == start.votes
    && (start.escalationCount < maxEscalations ==>
          && row.status == Pending && row.escalationCount == start.escalationCount + 1 && row.escalatedAt == Some(now)
          && row.expiresAt == if start.ruleId.Some? && start.ruleId.value in timeouts
                              then now + 60 * 60 * timeouts[start.ruleId.value] else start.expiresAt)
    && (start.escalationCount >= maxEscalations ==>
          && row.status == Expired && row.resolvedAt == Some(now) && row.escalationCount == start.escalationCount)
  }

  lemma PassedIdle(start: Row, row: Row, note: Note, timeouts: Timeouts, maxEscalations: int, checked: int, now: int)
    requires PassedOn(start, row, note, timeouts, maxEscalations, checked, now, true)
    requires start.status == Pending && start.expiresAt < checked
    ensures PassOutcome(start, row, timeouts, maxEscalations, now)
  {
    hide Later;
  }

  ghost function Views(all: set<Approval>): map<Approval, Row>
    reads all
  {
    map a | a in all :: a.View()
  }

  /** The listed approvals that are still below the limit. */
  function Below(listed: map<Approval, int>, maxEscalations: int): set<Approval> {
    set a | a in listed && listed[a] < maxEscalations
  }

  lemma BelowNone(listed: map<Approval, int>, maxEscalations: int)
    ensures |Below(listed - listed.Keys, maxEscalations)| == 0
  {
    assert Below(listed - listed.Keys, maxEscalations) == {};
  }

  lemma BelowNext(listed: map<Approval, int>, left: set<Approval>, approval: Approval, maxEscalations: int)
    requires left <= listed.Keys && approval in left
    ensures |Below(listed - (left - {approval}), maxEscalations)|
         == |Below(listed - left, maxEscalations)| + (if listed[approval] < maxEscalations then 1 else 0)
  {
    assert Below(listed - (left - {approval}), maxEscalations)
        == Below(listed - left, maxEscalations) + (if listed[approval] < maxEscalations then {approval} else {});
  }

  // ---------------------------------------------------------------- the standing of a pass

  /** The row that an update met, and the one it wrote. */
  datatype Note = Note(met: Row, written: Row)

  /** An approval that a pass has updated: other requests came before and after the update, unless all was idle. */
  ghost predicate Settled(start: Row, row: Row, note: Note, loadedCount: int, timeouts: Timeouts, maxEscalations: int,
                          now: int, idle: bool)
  {
    && Later(start, note.met) && Later(note.written, row)
    && note.written == Updated(note.met, loadedCount, timeouts, maxEscalations, now)
    && (idle ==> note.met == start && row == note.written)
  }

  ghost predicate Waiting(start: Row, row: Row, idle: bool) {
    Later(start, row) && (idle ==> row == start)
  }

  /** The approvals in `left` still wait for their update. */
  ghost predicate PassStands(start: map<Approval, Row>, rows: map<Approval, Row>, left: set<Approval>,
                             notes: map<Approval, Note>, listed: map<Approval, int>, timeouts: Timeouts,
                             maxEscalations: int, now: int, idle: bool)
  {
    && start.Keys == listed.Keys && rows.Keys == listed.Keys && notes.Keys == listed.Keys - left
    && (forall a :: a in listed && a in left ==> Waiting(start[a], rows[a], idle))
    && forall a :: a in listed && a !in left ==>
         Settled(start[a], rows[a], notes[a], listed[a], timeouts, maxEscalations, now, idle)
  }

  lemma PassStarts(start: map<Approval, Row>, listed: map<Approval, int>, timeouts: Timeouts, maxEscalations: int,
                   now: int)
    requires start.Keys == listed.Keys
    ensures PassStands(start, start, listed.Keys, map[], listed, timeouts, maxEscalations, now, true)
  {
  }

  lemma PassInterleaved(start: map<Approval, Row>, before: map<Approval, Row>, after: map<Approval, Row>,
                        left: set<Approval>, notes: map<Approval, Note>, listed: map<Approval, int>, timeouts: Timeouts,
                        maxEscalations: int, now: int, was: bool, idle: bool)
    requires PassStands(start, before, left, notes, listed, timeouts, maxEscalations, now, was)
    requires after.Keys == before.Keys && forall a :: a in before ==> Later(before[a], after[a])
    requires idle ==> was && forall a :: a in before ==> after[a] == before[a]
    ensures PassStands(start, after, left, notes, listed, timeouts, maxEscalations, now, idle)
  {
    hide Updated;
  }

  lemma PassUpdated(start: map<Approval, Row>, rows: map<Approval, Row>, left: set<Approval>,
                    notes: map<Approval, Note>, listed: map<Approval, int>, timeouts: Timeouts,
                    maxEscalations: int, now: int, idle: bool, approval: Approval)
    requires PassStands(start, rows, left, notes, listed, timeouts, maxEscalations, now, idle)
    requires approval in left && left <= listed.Keys
    ensures var written := Updated(rows[approval], listed[approval], timeouts, maxEscalations, now);
      PassStands(start, rows[approval := written], left - {approval}, notes[approval := Note(rows[approval], written)],
                 listed, timeouts, maxEscalations, now, idle)
  {
    hide Updated;
  }

  /** What a pass makes of an approval it lists, whatever other requests come before and after its update;
      with none, it is one undivided action. */
  ghost predicate PassedOn(start: Row, row: Row, note: Note, timeouts: Timeouts, maxEscalations: int, checked: int,
                           now: int, idle: bool)
  {
    && Later(start, note.met) && Later(note.written, row)
    && note.written == Write(note.met, Session(start, Passing, checked), timeouts, maxEscalations, now)
    && (idle ==> row == Apply(start, Action(Passing, timeouts, checked, now), maxEscalations, true))
  }

  lemma PassEnds(start: map<Approval, Row>, rows: map<Approval, Row>, notes: map<Approval, Note>,
                 listed: map<Approval, int>, timeouts: Timeouts, maxEscalations: int, checked: int, now: int,
                 idle: bool)
    requires PassStands(start, rows, {}, notes, listed, timeouts, maxEscalations, now, idle)
    requires forall a :: a in listed ==> Due(start[a], checked) && listed[a] == start[a].escalationCount
    ensures notes.Keys == listed.Keys == rows.Keys
    ensures forall a :: a in listed ==>
      PassedOn(start[a], rows[a], notes[a], timeouts, maxEscalations, checked, now, idle)
  {
    hide Escalate, Later, Due;
  }

  /** The update of one listed approval. */
  function Updated(current: Row, loadedCount: int, timeouts: Timeouts, maxEscalations: int, now: int): Row {
    if loadedCount < maxEscalations then Escalate(current, loadedCount + 1, timeouts, now)
    else Resolve(current, Expired, now)
  }

  lemma LaterItself()
    ensures forall row :: Later(row, row)
  {
  }
}
