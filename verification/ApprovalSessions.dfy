/** Requests on one approval that run side by side: each loads and checks the row in one step and
    writes in a later one, and the steps of different requests may alternate in any way. A write is
    one step, from its first flush to the commit, as the database lets one writer in at a time. */
module ApprovalSessions {
  import opened Wrappers
  import opened Approvals

  /** One step: a request loads and checks, an open one writes and commits, or an open one is given up. */
  datatype Event =
    | Begin(request: Request, now: int)
    | Commit(k: nat, timeouts: Timeouts, now: int)
    | Abandon(k: nat)

  /** The stored row and the requests that have passed their checks. */
  datatype World = World(row: Row, open: seq<Session>)

  function Without(open: seq<Session>, k: nat): seq<Session>
    requires k < |open|
  {
    open[..k] + open[k + 1..]
  }

  function Step(w: World, event: Event, maxEscalations: int): World {
    match event
    case Begin(request, now) =>
      if Refusal(w.row, request, now) == None then w.(open := w.open + [Session(w.row, request, now)]) else w
    case Commit(k, timeouts, now) =>
      if k < |w.open| then World(Write(w.row, w.open[k], timeouts, maxEscalations, now), Without(w.open, k)) else w
    case Abandon(k) => if k < |w.open| then w.(open := Without(w.open, k)) else w
  }

  function Play(row: Row, events: seq<Event>, maxEscalations: int): World {
    if events == [] then World(row, [])
    else
      var k := |events| - 1;
      Step(Play(row, events[..k], maxEscalations), events[k], maxEscalations)
  }

  // ---------------------------------------------------------------- one write

  /** A session that could be open while the row is `current`: it passed its checks on an earlier row. */
  ghost predicate Plausible(s: Session, current: Row) {
    Refusal(s.loaded, s.request, s.checked) == None && Later(s.loaded, current)
  }

  /** What a step must keep: both invariants, and the decision of a resolved approval. */
  ghost predicate Kept(before: Row, after: Row) {
    && FourEyes(after) && Decided(after)
    && (before.status != Pending ==>
          after.status == before.status && after.votes == before.votes && after.resolvedAt == before.resolvedAt)
  }

  /** Whether somebody of the voter's id or name has voted since the session loaded the row. */
  predicate VotedMeanwhile(s: Session, current: Row)
    requires s.request.Voting? && |s.loaded.votes| <= |current.votes|
  {
    exists i :: |s.loaded.votes| <= i < |current.votes| && SameVoter(current.votes[i], s.request.vote)
  }

  /** The test a request would have to make once more before it writes. */
  predicate Timely(s: Session, current: Row, maxEscalations: int, now: int)
    requires |s.loaded.votes| <= |current.votes|
  {
    match s.request
    case Voting(_) => current.status == Pending && !VotedMeanwhile(s, current)
    case Cancelling(_) => current.status == Pending || (current.status == Cancelled && current.resolvedAt == Some(now))
    case Passing =>
      || s.loaded.escalationCount < maxEscalations
      || current.status == Pending || (current.status == Expired && current.resolvedAt == Some(now))
  }

  /** A vote that passes its checks again on the row it meets keeps both invariants. */
  lemma TimelyVote(s: Session, current: Row, now: int)
    requires FourEyes(current) && Decided(current) && Plausible(s, current)
    requires s.request.Voting? && current.status == Pending && !VotedMeanwhile(s, current)
    ensures Kept(current, Record(current, s.request.vote, now))
  {
    var vote := s.request.vote;
    forall i | 0 <= i < |current.votes|
      ensures !SameVoter(current.votes[i], vote)
    {
      if i < |s.loaded.votes| {
        assert current.votes[i] == s.loaded.votes[i];
      }
    }
    hide Count, FourEyes, Decided;
    RecordFourEyes(current, vote, now);
    RecordDecided(current, vote, now);
  }

  /** A vote by somebody who voted meanwhile is a second vote. */
  lemma SecondVote(s: Session, current: Row, now: int)
    requires s.request.Voting? && |s.loaded.votes| <= |current.votes| && VotedMeanwhile(s, current)
    ensures !FourEyes(Record(current, s.request.vote, now))
  {
    hide Count;
    var votes := Record(current, s.request.vote, now).votes;
    var i :| |s.loaded.votes| <= i < |current.votes| && SameVoter(current.votes[i], s.request.vote);
    assert votes[i] == current.votes[i] && votes[|current.votes|] == s.request.vote;
  }

  /** A write keeps the invariants and the decision if and only if it is timely. */
  lemma WriteKeepsIff(s: Session, current: Row, timeouts: Timeouts, maxEscalations: int, now: int)
    requires FourEyes(current) && Decided(current) && Plausible(s, current)
    ensures Kept(current, Write(current, s, timeouts, maxEscalations, now)) <==> Timely(s, current, maxEscalations, now)
  {
    if s.request.Voting? {
      if current.status == Pending {
        hide Count, FourEyes, Decided, Plausible, VotedMeanwhile, Record;
        assert |s.loaded.votes| <= |current.votes| by { PlausibleVotes(s, current); }
        if VotedMeanwhile(s, current) {
          SecondVote(s, current, now);
        } else {
          TimelyVote(s, current, now);
        }
      } else {
        hide Count, FourEyes, Decided;
        assert |Record(current, s.request.vote, now).votes| > |current.votes|;
      }
    } else {
      hide Count, FourEyes, VotedMeanwhile, Record;
      WriteWithoutVote(s, current, timeouts, maxEscalations, now);
    }
  }

  lemma PlausibleVotes(s: Session, current: Row)
    requires Plausible(s, current)
    ensures |s.loaded.votes| <= |current.votes|
  {
  }

  lemma WriteWithoutVote(s: Session, current: Row, timeouts: Timeouts, maxEscalations: int, now: int)
    requires FourEyes(current) && !s.request.Voting?
    ensures FourEyes(Write(current, s, timeouts, maxEscalations, now))
  {
    hide SameVoter;
  }

  /** Whatever a write does, votes stay and the origin of the approval is fixed. */
  lemma WriteIsLater(s: Session, current: Row, timeouts: Timeouts, maxEscalations: int, now: int)
    ensures Later(current, Write(current, s, timeouts, maxEscalations, now))
  {
    hide Count;
  }

  // ---------------------------------------------------------------- whole runs

  ghost predicate AllPlausible(w: World) {
    forall i :: 0 <= i < |w.open| ==> Plausible(w.open[i], w.row)
  }

  lemma StepPlausible(w: World, event: Event, maxEscalations: int)
    requires AllPlausible(w)
    ensures AllPlausible(Step(w, event, maxEscalations))
  {
    hide Refusal, Write;
    if event.Commit? && event.k < |w.open| {
      WriteIsLater(w.open[event.k], w.row, event.timeouts, maxEscalations, event.now);
    }
  }

  lemma {:induction false} PlayPlausible(row: Row, events: seq<Event>, maxEscalations: int)
    ensures AllPlausible(Play(row, events, maxEscalations))
  {
    hide Step, Plausible;
    if events != [] {
      var k := |events| - 1;
      PlayPlausible(row, events[..k], maxEscalations);
      StepPlausible(Play(row, events[..k], maxEscalations), events[k], maxEscalations);
    }
  }

  /** The step kept what it must. */
  ghost predicate StepKept(w: World, event: Event, maxEscalations: int) {
    Kept(w.row, Step(w, event, maxEscalations).row)
  }

  /** If the step is a write, it is timely. */
  ghost predicate StepTimely(w: World, event: Event, maxEscalations: int) {
    event.Commit? && event.k < |w.open| ==>
      var s := w.open[event.k];
      |s.loaded.votes| <= |w.row.votes| && Timely(s, w.row, maxEscalations, event.now)
  }

  lemma StepKeepsIff(w: World, event: Event, maxEscalations: int)
    requires FourEyes(w.row) && Decided(w.row) && AllPlausible(w)
    ensures StepKept(w, event, maxEscalations) <==> StepTimely(w, event, maxEscalations)
  {
    hide FourEyes, Decided, Plausible, Timely, Write;
    if event.Commit? && event.k < |w.open| {
      PlausibleVotes(w.open[event.k], w.row);
      WriteKeepsIff(w.open[event.k], w.row, event.timeouts, maxEscalations, event.now);
    }
  }

  ghost predicate AllKept(row: Row, events: seq<Event>, maxEscalations: int) {
    forall k :: 0 <= k < |events| ==> StepKept(Play(row, events[..k], maxEscalations), events[k], maxEscalations)
  }

  ghost predicate AllTimely(row: Row, events: seq<Event>, maxEscalations: int) {
    forall k :: 0 <= k < |events| ==> StepTimely(Play(row, events[..k], maxEscalations), events[k], maxEscalations)
  }

  lemma KeptNext(row: Row, events: seq<Event>, maxEscalations: int)
    requires events != []
    ensures var k := |events| - 1;
      && (AllKept(row, events, maxEscalations) <==>
            AllKept(row, events[..k], maxEscalations)
            && StepKept(Play(row, events[..k], maxEscalations), events[k], maxEscalations))
      && (AllTimely(row, events, maxEscalations) <==>
            AllTimely(row, events[..k], maxEscalations)
            && StepTimely(Play(row, events[..k], maxEscalations), events[k], maxEscalations))
  {
    hide StepKept, StepTimely, Play;
    var k := |events| - 1;
    assert forall j :: 0 <= j < k ==> events[..k][..j] == events[..j] && events[..k][j] == events[j];
  }

  lemma NewIsSound(row: Row)
    requires IsNew(row) && row.required >= 1
    ensures FourEyes(row) && Decided(row)
  {
  }

  /** In every interleaving of requests on an approval that needs a vote, all steps keep the four-eye
      principle, the counts that decide the status and the decision once made, if and only if every write is
      timely; the approval then has fewer votes than twice the required number. */
  lemma {:induction false} InterleavedKeepsIff(row: Row, events: seq<Event>, maxEscalations: int)
    requires IsNew(row) && row.required >= 1
    ensures AllKept(row, events, maxEscalations) <==> AllTimely(row, events, maxEscalations)
    ensures var r := Play(row, events, maxEscalations).row;
      && r.required == row.required
      && (AllTimely(row, events, maxEscalations) ==>
            FourEyes(r) && Decided(r) && |r.votes| <= 2 * row.required - 1)
  {
    hide FourEyes, Decided, Step, StepKept, StepTimely, AllKept, AllTimely, Plausible;
    if events == [] {
      NewIsSound(row);
      DecidedBound(row);
      NoEvents(row, maxEscalations);
    } else {
      var k := |events| - 1;
      var w := Play(row, events[..k], maxEscalations);
      InterleavedKeepsIff(row, events[..k], maxEscalations);
      KeptNext(row, events, maxEscalations);
      PlayPlausible(row, events[..k], maxEscalations);
      StepRequired(w, events[k], maxEscalations);
      if AllTimely(row, events[..k], maxEscalations) {
        StepKeepsIff(w, events[k], maxEscalations);
        if StepKept(w, events[k], maxEscalations) {
          StepKeptMeans(w, events[k], maxEscalations);
          DecidedBound(Play(row, events, maxEscalations).row);
        }
      }
    }
  }

  lemma NoEvents(row: Row, maxEscalations: int)
    ensures AllKept(row, [], maxEscalations) && AllTimely(row, [], maxEscalations)
  {
  }

  lemma StepRequired(w: World, event: Event, maxEscalations: int)
    ensures Step(w, event, maxEscalations).row.required == w.row.required
  {
    hide Count, Refusal;
  }

  lemma StepKeptMeans(w: World, event: Event, maxEscalations: int)
    requires StepKept(w, event, maxEscalations)
    ensures FourEyes(Step(w, event, maxEscalations).row) && Decided(Step(w, event, maxEscalations).row)
  {
  }

  ghost predicate EscalationsWithin(w: World, maxEscalations: nat) {
    && 0 <= w.row.escalationCount <= maxEscalations
    && forall i :: 0 <= i < |w.open| ==> 0 <= w.open[i].loaded.escalationCount <= maxEscalations
  }

  lemma WriteEscalations(s: Session, current: Row, timeouts: Timeouts, maxEscalations: nat, now: int)
    requires 0 <= current.escalationCount <= maxEscalations && 0 <= s.loaded.escalationCount <= maxEscalations
    ensures 0 <= Write(current, s, timeouts, maxEscalations, now).escalationCount <= maxEscalations
  {
    hide Count;
  }

  lemma StepEscalations(w: World, event: Event, maxEscalations: nat)
    requires EscalationsWithin(w, maxEscalations)
    ensures EscalationsWithin(Step(w, event, maxEscalations), maxEscalations)
  {
    hide Refusal, Write;
    if event.Commit? && event.k < |w.open| {
      WriteEscalations(w.open[event.k], w.row, event.timeouts, maxEscalations, event.now);
    }
  }

  /** Escalations never exceed the limit, whatever falls between the listing and the update of a pass. */
  lemma {:induction false} InterleavedEscalationsBounded(row: Row, events: seq<Event>, maxEscalations: nat)
    requires IsNew(row)
    ensures EscalationsWithin(Play(row, events, maxEscalations), maxEscalations)
  {
    hide Step;
    if events != [] {
      var k := |events| - 1;
      InterleavedEscalationsBounded(row, events[..k], maxEscalations);
      StepEscalations(Play(row, events[..k], maxEscalations), events[k], maxEscalations);
    }
  }

  // ---------------------------------------------------------------- one request at a time

  /** No two requests on the approval are under way together. */
  ghost predicate Alone(row: Row, events: seq<Event>, maxEscalations: int) {
    forall k :: 0 <= k <= |events| ==> |Play(row, events[..k], maxEscalations).open| <= 1
  }

  /** The request under way has loaded the row as it still is. */
  ghost predicate Current(w: World) {
    |w.open| <= 1 && (w.open != [] ==>
      w.open[0].loaded == w.row && Refusal(w.row, w.open[0].request, w.open[0].checked) == None)
  }

  function ActionOf(s: Session, timeouts: Timeouts, now: int): Action {
    Action(s.request, timeouts, s.checked, now)
  }

  lemma AloneStep(w: World, event: Event, maxEscalations: int) returns (actions: seq<Action>)
    requires Current(w) && |Step(w, event, maxEscalations).open| <= 1
    ensures Current(Step(w, event, maxEscalations)) && |actions| <= 1
    ensures Step(w, event, maxEscalations).row == Run(w.row, actions, maxEscalations, true)
    ensures StepTimely(w, event, maxEscalations)
  {
    hide Refusal, Write;
    if event.Commit? && event.k < |w.open| {
      var s := w.open[0];
      actions := [ActionOf(s, event.timeouts, event.now)];
      assert Run(w.row, actions[..0], maxEscalations, true) == w.row;
      PendingWhenChecked(w.row, s.request, s.checked);
    } else {
      actions := [];
    }
  }

  lemma PendingWhenChecked(row: Row, request: Request, now: int)
    requires Refusal(row, request, now) == None
    ensures row.status == Pending
  {
    hide Objection;
  }

  lemma {:induction false} RunAppend(row: Row, first: seq<Action>, second: seq<Action>, maxEscalations: int)
    ensures Run(row, first + second, maxEscalations, true)
         == Run(Run(row, first, maxEscalations, true), second, maxEscalations, true)
    decreases |second|
  {
    hide Apply;
    if second == [] {
      assert first + second == first;
    } else {
      var k := |second| - 1;
      assert first + second == first + second[..k] + [second[k]];
      RunAppend(row, first, second[..k], maxEscalations);
      RunSnoc(row, first + second[..k], second[k], maxEscalations, true);
    }
  }

  /** If no two requests are under way together, every write is timely and the run is one of undivided
      requests, so that everything proved of those holds of it. */
  lemma {:induction false} AloneIsUndivided(row: Row, events: seq<Event>, maxEscalations: int)
    returns (actions: seq<Action>)
    requires Alone(row, events, maxEscalations)
    ensures AllTimely(row, events, maxEscalations)
    ensures Play(row, events, maxEscalations).row == Run(row, actions, maxEscalations, true)
    ensures Current(Play(row, events, maxEscalations))
  {
    hide Step, StepTimely, AllTimely, StepKept, AllKept, Current, Run;
    if events == [] {
      NoEvents(row, maxEscalations);
      actions := [];
      NoActions(row, maxEscalations);
    } else {
      var k := |events| - 1;
      assert forall j :: 0 <= j <= k ==> events[..k][..j] == events[..j];
      assert events[..|events|] == events;
      var before := AloneIsUndivided(row, events[..k], maxEscalations);
      var last := AloneStep(Play(row, events[..k], maxEscalations), events[k], maxEscalations);
      actions := before + last;
      RunAppend(row, before, last, maxEscalations);
      KeptNext(row, events, maxEscalations);
    }
  }

  lemma NoActions(row: Row, maxEscalations: int)
    ensures Run(row, [], maxEscalations, true) == row && Current(World(row, []))
  {
  }

  // ---------------------------------------------------------------- what else may happen

  lemma PlaySnoc(row: Row, events: seq<Event>, event: Event, maxEscalations: int)
    ensures Play(row, events + [event], maxEscalations)
      == Step(Play(row, events, maxEscalations), event, maxEscalations)
  {
    hide Step;
    assert (events + [event])[..|events|] == events;
  }

  /** Two requests that begin together and commit one after the other. */
  function Overlapping(first: Request, second: Request, now: int): seq<Event> {
    [] + [Begin(first, now)] + [Begin(second, now)] + [Commit(0, map[], now)] + [Commit(0, map[], now)]
  }

  lemma OverlappingWrites(row: Row, first: Request, second: Request, now: int, maxEscalations: int)
    requires Refusal(row, first, now) == None && Refusal(row, second, now) == None
    ensures var one := Write(row, Session(row, first, now), map[], maxEscalations, now);
      && Play(row, Overlapping(first, second, now), maxEscalations).row
        == Write(one, Session(row, second, now), map[], maxEscalations, now)
      && Play(row, Overlapping(first, second, now)[..3], maxEscalations).row == one
  {
    hide Refusal, Write, Play;
    assert Overlapping(first, second, now)[..3]
        == [] + [Begin(first, now)] + [Begin(second, now)] + [Commit(0, map[], now)];
    assert Play(row, [], maxEscalations) == World(row, []) by { PlayNothing(row, maxEscalations); }
    PlaySnoc(row, [], Begin(first, now), maxEscalations);
    PlaySnoc(row, [] + [Begin(first, now)], Begin(second, now), maxEscalations);
    PlaySnoc(row, [] + [Begin(first, now)] + [Begin(second, now)], Commit(0, map[], now), maxEscalations);
    PlaySnoc(row, [] + [Begin(first, now)] + [Begin(second, now)] + [Commit(0, map[], now)], Commit(0, map[], now),
             maxEscalations);
  }

  lemma PlayNothing(row: Row, maxEscalations: int)
    ensures Play(row, [], maxEscalations) == World(row, [])
  {
  }

  /** One approver whose vote is sent twice at once approves a request that needs two approvers. */
  lemma DoubleVote(row: Row, vote: Vote, now: int, maxEscalations: int)
    requires IsNew(row) && row.required == 2 && vote.vote == "approve" && Refusal(row, Voting(vote), now) == None
    ensures var r := Play(row, Overlapping(Voting(vote), Voting(vote), now), maxEscalations).row;
      r.status == Approved && r.votes == [vote, vote] && !FourEyes(r)
  {
    OverlappingWrites(row, Voting(vote), Voting(vote), now, maxEscalations);
    CountNext([], vote, "approve");
    CountNext([vote], vote, "approve");
    CountNext([], vote, "reject");
    CountNext([vote], vote, "reject");
    assert [] + [vote] == [vote] && [vote] + [vote] == [vote, vote];
    hide Count, Refusal, Play;
    assert SameVoter([vote, vote][0], [vote, vote][1]);
  }

  /** Two approvers at once give a request that needs one of them two votes, against the bound, and the
      second vote writes the resolution anew. */
  lemma TwoApprovals(row: Row, left: Vote, right: Vote, now: int, maxEscalations: int)
    requires IsNew(row) && row.required == 1 && left.vote == right.vote == "approve"
    requires Refusal(row, Voting(left), now) == None && Refusal(row, Voting(right), now) == None
    ensures var r := Play(row, Overlapping(Voting(left), Voting(right), now), maxEscalations).row;
      r.votes == [left, right] && |r.votes| > 2 * row.required - 1 && !Decided(r)
  {
    OverlappingWrites(row, Voting(left), Voting(right), now, maxEscalations);
    CountNext([], left, "approve");
    CountNext([left], right, "approve");
    assert [] + [left] == [left] && [left] + [right] == [left, right];
    hide Count, Refusal, Play;
  }

  /** A cancellation between the listing and the update of a pass is overwritten when the escalations are used up. */
  lemma CancelUnderPass(row: Row, userId: string, now: int, maxEscalations: int)
    requires Refusal(row, Cancelling(userId), now) == None && Due(row, now) && row.escalationCount >= maxEscalations
    ensures var events := Overlapping(Cancelling(userId), Passing, now);
      && Play(row, events[..3], maxEscalations).row.status == Cancelled
      && Play(row, events, maxEscalations).row.status == Expired
  {
    hide Play, Count;
    OverlappingWrites(row, Cancelling(userId), Passing, now, maxEscalations);
  }
}
