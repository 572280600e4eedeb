/**
 The 401 interceptor of the browser client (client.ts): the first request to find its token expired
 leads a refresh, later ones queue behind it, and the queue is flushed or drained when it settles.
 */
module TokenRefresh {
  import Text

  datatype Outcome =
    | Released(token: string)  // a waiter retries with the new token
    | Served                   // the leader's own retry was answered
    | Rejected

  datatype Stage =
    | Refreshing
    | Retrying                 // the refresh succeeded, the leader retries its request
    | Closing(outcome: Outcome) // the leader's promise is settled, `finally` has not run yet

  datatype Phase = Leading(stage: Stage) | Queued | Settled(outcome: Outcome)

  /** `requests` are the 401'd requests in the order their handlers ran; `queue` holds their resolvers. */
  datatype State = State(isRefreshing: bool, queue: seq<nat>, token: string, requests: seq<Phase>)

  datatype Event =
    | Unauthorized              // a request comes back with 401
    | RefreshSucceeds(newToken: string)
    | RefreshFails
    | RetrySucceeds
    | RetryFails
    | Finally
    | TokenChanges(token: string) // login, logout, or the timer-driven refresh

  predicate LeaderIs(s: State, leader: nat, stage: Stage) {
    leader < |s.requests| && s.requests[leader] == Leading(stage)
  }

  function WaiterOutcome(token: string): Outcome {
    if token == "" then Rejected else Released(token)
  }

  /** All queued resolvers called with `token`. */
  function Resolved(requests: seq<Phase>, queue: seq<nat>, token: string): seq<Phase> {
    seq(|requests|, i requires 0 <= i < |requests| => if i in queue then Settled(WaiterOutcome(token)) else requests[i])
  }

  predicate Enabled(s: State, leader: nat, e: Event) {
    match e
    case Unauthorized => true
    case RefreshSucceeds(_) => LeaderIs(s, leader, Refreshing)
    case RefreshFails => LeaderIs(s, leader, Refreshing)
    case RetrySucceeds => LeaderIs(s, leader, Retrying)
    case RetryFails => LeaderIs(s, leader, Retrying)
    case Finally => leader < |s.requests| && s.requests[leader].Leading? && s.requests[leader].stage.Closing?
    case TokenChanges(_) => true
  }

  /** The step of `e`, for the request `leader` whose handler it belongs to where it belongs to one. */
  function Step(s: State, leader: nat, e: Event): State {
    if !Enabled(s, leader, e) then s
    else match e
    case Unauthorized =>
      if s.token == "" then s.(requests := s.requests + [Settled(Rejected)])
      else if s.isRefreshing then s.(queue := s.queue + [|s.requests|], requests := s.requests + [Queued])
      else s.(isRefreshing := true, requests := s.requests + [Leading(Refreshing)])
    case RefreshSucceeds(newToken) =>
      State(s.isRefreshing, [], Text.Trim(newToken), Resolved(s.requests, s.queue, newToken)[leader := Leading(Retrying)])
    case RefreshFails =>
      State(s.isRefreshing, [], "", Resolved(s.requests, s.queue, "")[leader := Leading(Closing(Rejected))])
    case RetrySucceeds => s.(requests := s.requests[leader := Leading(Closing(Served))])
    case RetryFails =>
      State(s.isRefreshing, [], "", Resolved(s.requests, s.queue, "")[leader := Leading(Closing(Rejected))])
    case Finally => s.(isRefreshing := false, requests := s.requests[leader := Settled(s.requests[leader].stage.outcome)])
    case TokenChanges(token) => s.(token := Text.Trim(token))
  }

  // ----- the module variables and their handlers

  class ApiClient {
    var isRefreshing: bool
    var refreshQueue: seq<nat>
    var token: string
    var requests: seq<Phase>

    constructor (token: string)
      ensures Now() == State(false, [], Text.Trim(token), [])
    {
      isRefreshing, refreshQueue, requests := false, [], [];
      this.token := Text.Trim(token);
    }

    ghost function Now(): State
      reads this
    {
      State(isRefreshing, refreshQueue, token, requests)
    }

    /** Calls every queued resolver with `newToken` and empties the queue; an empty token drains it. */
    method FlushRefreshQueue(newToken: string)
      requires Consistent(Now())
      modifies this`requests, this`refreshQueue
      ensures requests == Resolved(old(requests), old(refreshQueue), newToken)
      ensures refreshQueue == []
    {
      for k := 0 to |refreshQueue|
        invariant refreshQueue == old(refreshQueue)
        invariant requests == Resolved(old(requests), refreshQueue[..k], newToken)
      {
        var waiter := refreshQueue[k];
        assert waiter in old(Now()).queue;
        assert refreshQueue[..k + 1] == refreshQueue[..k] + [waiter];
        requests := requests[waiter := Settled(WaiterOutcome(newToken))];
      }
      assert refreshQueue[..|refreshQueue|] == refreshQueue;
      refreshQueue := [];
    }

    method OnUnauthorized(ghost leader: nat) returns (request: nat)
      modifies this
      ensures request == |old(requests)| && Now() == Step(old(Now()), leader, Unauthorized)
    {
      request := |requests|;
      if token == "" {
        requests := requests + [Settled(Rejected)];
        return;
      }
      if isRefreshing {
        refreshQueue := refreshQueue + [request];
        requests := requests + [Queued];
        return;
      }
      isRefreshing := true;
      requests := requests + [Leading(Refreshing)];
    }

    method OnRefreshed(leader: nat, newToken: string)
      requires Consistent(Now()) && Enabled(Now(), leader, RefreshSucceeds(newToken))
      modifies this
      ensures Now() == Step(old(Now()), leader, RefreshSucceeds(newToken))
    {
      token := Text.Trim(newToken);
      FlushRefreshQueue(newToken);
      requests := requests[leader := Leading(Retrying)];
    }

    /** The catch handler: reached from a failed refresh and from a failed retry of the leader. */
    method OnFailure(leader: nat)
      requires Consistent(Now()) && (Enabled(Now(), leader, RefreshFails) || Enabled(Now(), leader, RetryFails))
      modifies this
      ensures Now() == Step(old(Now()), leader, if old(Enabled(Now(), leader, RefreshFails)) then RefreshFails else RetryFails)
    {
      FlushRefreshQueue("");
      token := "";
      requests := requests[leader := Leading(Closing(Rejected))];
    }

    method OnRetried(leader: nat)
      requires Enabled(Now(), leader, RetrySucceeds)
      modifies this`requests
      ensures Now() == Step(old(Now()), leader, RetrySucceeds)
    {
      requests := requests[leader := Leading(Closing(Served))];
    }

    method OnFinally(leader: nat)
      requires Enabled(Now(), leader, Finally)
      modifies this`requests, this`isRefreshing
      ensures Now() == Step(old(Now()), leader, Finally)
    {
      isRefreshing := false;
      requests := requests[leader := Settled(requests[leader].stage.outcome)];
    }
  }

  // ----- what every interleaving keeps

  /**
   A refresh cycle is open exactly while some request leads it, at most one does, and the queue holds
   exactly the queued requests, each once, in arrival order.
   */
  ghost predicate Consistent(s: State) {
    && (forall i, j | 0 <= i < |s.requests| && 0 <= j < |s.requests| && s.requests[i].Leading? && s.requests[j].Leading? :: i == j)
    && (s.isRefreshing <==> exists i :: 0 <= i < |s.requests| && s.requests[i].Leading?)
    && (forall i: nat :: i in s.queue <==> i < |s.requests| && s.requests[i].Queued?)
    && (forall i, j | 0 <= i < j < |s.queue| :: s.queue[i] < s.queue[j])
  }

  lemma {:induction false} QueueIsOfRequests(s: State)
    requires Consistent(s)
    ensures forall i | 0 <= i < |s.queue| :: s.queue[i] < |s.requests|
  {
    forall i | 0 <= i < |s.queue| ensures s.queue[i] < |s.requests| { assert s.queue[i] in s.queue; }
  }

  lemma {:induction false} RejectingKeepsConsistent(s: State)
    requires Consistent(s)
    ensures Consistent(s.(requests := s.requests + [Settled(Rejected)]))
  {
    var t := s.(requests := s.requests + [Settled(Rejected)]);
    QueueIsOfRequests(s);
    assert t.requests[..|s.requests|] == s.requests;
    if s.isRefreshing {
      var i :| 0 <= i < |s.requests| && s.requests[i].Leading?;
      assert t.requests[i].Leading?;
    }
  }

  lemma {:induction false} QueueingKeepsConsistent(s: State)
    requires Consistent(s) && s.isRefreshing
    ensures Consistent(s.(queue := s.queue + [|s.requests|], requests := s.requests + [Queued]))
  {
    var n, t := |s.requests|, s.(queue := s.queue + [|s.requests|], requests := s.requests + [Queued]);
    QueueIsOfRequests(s);
    var i :| 0 <= i < n && s.requests[i].Leading?;
    assert t.requests[i].Leading?;
    forall k: nat ensures k in t.queue <==> k < |t.requests| && t.requests[k].Queued? {
      assert k in t.queue <==> k in s.queue || k == n;
      assert k < n ==> t.requests[k] == s.requests[k];
    }
  }

  lemma {:induction false} LeadingKeepsConsistent(s: State)
    requires Consistent(s) && !s.isRefreshing
    ensures Consistent(s.(isRefreshing := true, requests := s.requests + [Leading(Refreshing)]))
  {
    var n, t := |s.requests|, s.(isRefreshing := true, requests := s.requests + [Leading(Refreshing)]);
    QueueIsOfRequests(s);
    assert t.requests[n].Leading?;
    forall i | 0 <= i < n ensures t.requests[i] == s.requests[i] && !t.requests[i].Leading? {}
  }

  lemma {:induction false} UnauthorizedKeepsConsistent(s: State, leader: nat)
    requires Consistent(s)
    ensures Consistent(Step(s, leader, Unauthorized))
  {
    if s.token == "" {
      RejectingKeepsConsistent(s);
    } else if s.isRefreshing {
      QueueingKeepsConsistent(s);
    } else {
      LeadingKeepsConsistent(s);
    }
  }

  lemma {:induction false} SettlingKeepsConsistent(s: State, leader: nat, token: string, stage: Stage, stored: string)
    requires Consistent(s) && leader < |s.requests| && s.requests[leader].Leading?
    ensures Consistent(State(s.isRefreshing, [], stored, Resolved(s.requests, s.queue, token)[leader := Leading(stage)]))
  {
    var requests := Resolved(s.requests, s.queue, token)[leader := Leading(stage)];
    assert requests[leader].Leading?;
    forall i | 0 <= i < |requests| && i != leader ensures !requests[i].Leading? && !requests[i].Queued? {
      assert i in s.queue || requests[i] == s.requests[i];
    }
  }

  lemma {:induction false} AdvancingKeepsConsistent(s: State, leader: nat, e: Event)
    requires Consistent(s) && Enabled(s, leader, e) && (e.RetrySucceeds? || e.Finally? || e.TokenChanges?)
    ensures Consistent(Step(s, leader, e))
  {
    var t := Step(s, leader, e);
    if e.RetrySucceeds? {
      assert t.requests[leader].Leading?;
    }
    forall i: nat ensures i in t.queue <==> i < |t.requests| && t.requests[i].Queued? {
      assert i < |t.requests| && i != leader ==> t.requests[i] == s.requests[i];
    }
  }

  lemma {:induction false} StepKeepsConsistent(s: State, leader: nat, e: Event)
    requires Consistent(s) && Enabled(s, leader, e)
    ensures Consistent(Step(s, leader, e))
  {
    match e
    case Unauthorized => UnauthorizedKeepsConsistent(s, leader);
    case RefreshSucceeds(newToken) => SettlingKeepsConsistent(s, leader, newToken, Retrying, Text.Trim(newToken));
    case RefreshFails => SettlingKeepsConsistent(s, leader, "", Closing(Rejected), "");
    case RetryFails => SettlingKeepsConsistent(s, leader, "", Closing(Rejected), "");
    case _ => AdvancingKeepsConsistent(s, leader, e);
  }

  /** An event together with the request whose handler it is. */
  type Occurrence = (nat, Event)

  function Run(s: State, run: seq<Occurrence>): State {
    if run == [] then s
    else
      var (leader, e) := run[|run| - 1];
      Step(Run(s, run[..|run| - 1]), leader, e)
  }

  ghost predicate Possible(s: State, run: seq<Occurrence>) {
    forall i | 0 <= i < |run| :: Enabled(Run(s, run[..i]), run[i].0, run[i].1)
  }

  lemma {:induction false} PossiblePrefix(s: State, run: seq<Occurrence>)
    requires run != [] && Possible(s, run)
    ensures var front := run[..|run| - 1];
      Possible(s, front) && Enabled(Run(s, front), run[|run| - 1].0, run[|run| - 1].1)
  {
    var front := run[..|run| - 1];
    forall i | 0 <= i < |front| ensures Enabled(Run(s, front[..i]), front[i].0, front[i].1) {
      assert front[..i] == run[..i];
    }
  }

  /** Single flight: over every interleaving, at most one refresh is ever in flight. */
  lemma {:induction false} RefreshIsSingleFlight(s: State, run: seq<Occurrence>)
    requires Consistent(s) && Possible(s, run)
    ensures Consistent(Run(s, run))
    ensures var requests := Run(s, run).requests;
      forall i, j | 0 <= i < |requests| && 0 <= j < |requests|
        && requests[i] == Leading(Refreshing) && requests[j] == Leading(Refreshing) :: i == j
  {
    if run != [] {
      PossiblePrefix(s, run);
      RefreshIsSingleFlight(s, run[..|run| - 1]);
      StepKeepsConsistent(Run(s, run[..|run| - 1]), run[|run| - 1].0, run[|run| - 1].1);
    }
  }

  /** A settled request is never settled again: its outcome is final over the rest of the run. */
  lemma {:induction false} OutcomesAreFinal(s: State, run: seq<Occurrence>, request: nat)
    requires Consistent(s) && Possible(s, run) && request < |s.requests| && s.requests[request].Settled?
    ensures request < |Run(s, run).requests| && Run(s, run).requests[request] == s.requests[request]
  {
    if run != [] {
      PossiblePrefix(s, run);
      RefreshIsSingleFlight(s, run[..|run| - 1]);
      OutcomesAreFinal(s, run[..|run| - 1], request);
    }
  }

  /** Every waiter queued when the refresh settles gets that one outcome, and nobody else is touched. */
  lemma {:induction false} WaitersShareTheOutcome(s: State, leader: nat, e: Event, request: nat)
    requires Consistent(s) && Enabled(s, leader, e) && (e.RefreshSucceeds? || e.RefreshFails? || e.RetryFails?)
    requires request < |s.requests| && request != leader
    ensures Step(s, leader, e).requests[request] ==
      if s.requests[request].Queued?
      then Settled(if e.RefreshSucceeds? && e.newToken != "" then Released(e.newToken) else Rejected)
      else s.requests[request]
    ensures Step(s, leader, e).queue == []
  {
  }

  // ----- what becomes of the leader, the token, and a request without one

  /** A 401 without a stored token is rejected; with one it queues behind an open cycle, and leads one otherwise. */
  lemma {:induction false} UnauthorizedOutcomes(s: State, leader: nat)
    ensures var t, n := Step(s, leader, Unauthorized), |s.requests|;
      && |t.requests| == n + 1 && t.requests[..n] == s.requests && t.token == s.token
      && (s.token == "" ==> t.requests[n] == Settled(Rejected) && t.queue == s.queue)
      && (s.token != "" && s.isRefreshing ==> t.requests[n] == Queued && t.queue == s.queue + [n])
      && (s.token != "" && !s.isRefreshing ==> t.requests[n] == Leading(Refreshing) && t.isRefreshing)
  {
  }

  /** A refreshed token is stored, trimmed, and the leader retries; an answered retry serves the leader. */
  lemma {:induction false} SuccessOutcomes(s: State, leader: nat, newToken: string)
    requires LeaderIs(s, leader, Refreshing)
    ensures var t := Step(s, leader, RefreshSucceeds(newToken));
      && t.token == Text.Trim(newToken) && t.requests[leader] == Leading(Retrying)
      && var u := Step(Step(t, leader, RetrySucceeds), leader, Finally);
         u.token == t.token && !u.isRefreshing && u.requests[leader] == Settled(Served)
  {
  }

  /** A failed refresh, or a failed retry of the leader, rejects the leader and clears the token. */
  lemma {:induction false} FailureOutcomes(s: State, leader: nat, e: Event)
    requires Enabled(s, leader, e) && (e.RefreshFails? || e.RetryFails?)
    ensures var t := Step(s, leader, e);
      t.token == "" && t.requests[leader] == Leading(Closing(Rejected))
  {
  }

  /** The leader of a failed cycle has the rejection, now or when the cycle closes. */
  predicate IsRejected(s: State, leader: nat) {
    leader < |s.requests| && s.requests[leader] in {Leading(Closing(Rejected)), Settled(Rejected)}
  }

  lemma {:induction false} StepKeepsRejected(s: State, actor: nat, e: Event, leader: nat)
    requires Consistent(s) && Enabled(s, actor, e) && IsRejected(s, leader)
    ensures IsRejected(Step(s, actor, e), leader)
  {
  }

  /** In every run after a failure its leader stays rejected. */
  lemma {:induction false} FailedLeaderIsRejected(s: State, run: seq<Occurrence>, leader: nat)
    requires Consistent(s) && Possible(s, run) && IsRejected(s, leader)
    ensures IsRejected(Run(s, run), leader)
  {
    if run != [] {
      var n := |run| - 1;
      PossiblePrefix(s, run);
      RefreshIsSingleFlight(s, run[..n]);
      FailedLeaderIsRejected(s, run[..n], leader);
      StepKeepsRejected(Run(s, run[..n]), run[n].0, run[n].1, leader);
    }
  }

  /** No token is stored, and no refresh or retry is on its way that could store one. */
  ghost predicate SignedOut(s: State) {
    s.token == "" && forall i | 0 <= i < |s.requests| && s.requests[i].Leading? :: s.requests[i].stage.Closing?
  }

  lemma {:induction false} FailureSignsOut(s: State, leader: nat, e: Event)
    requires Consistent(s) && Enabled(s, leader, e) && (e.RefreshFails? || e.RetryFails?)
    ensures SignedOut(Step(s, leader, e))
  {
  }

  lemma {:induction false} StepKeepsSignedOut(s: State, leader: nat, e: Event)
    requires SignedOut(s) && Enabled(s, leader, e) && !e.TokenChanges?
    ensures SignedOut(Step(s, leader, e))
  {
  }

  /** After a failure no token is stored until a login, whatever requests come back. */
  lemma {:induction false} SignedOutUntilLogin(s: State, run: seq<Occurrence>)
    requires SignedOut(s) && Possible(s, run) && forall i | 0 <= i < |run| :: !run[i].1.TokenChanges?
    ensures SignedOut(Run(s, run))
  {
    if run != [] {
      var n := |run| - 1;
      PossiblePrefix(s, run);
      SignedOutUntilLogin(s, run[..n]);
      StepKeepsSignedOut(Run(s, run[..n]), run[n].0, run[n].1);
    }
  }

  // ----- waiters that come late

  /** The open cycle has flushed or drained the queue already: its leader retries, or is about to close. */
  ghost predicate Flushed(s: State) {
    exists i :: 0 <= i < |s.requests| && s.requests[i].Leading? && s.requests[i].stage != Refreshing
  }

  /** A request comes back with 401 while a token is stored and the queue of the open cycle was flushed. */
  ghost predicate ArrivesLate(s: State, e: Event, request: nat) {
    e.Unauthorized? && request == |s.requests| && s.token != "" && Flushed(s)
  }

  /** After step `k` of the run its cycle neither fails again nor closes. */
  ghost predicate Undisturbed(run: seq<Occurrence>, k: nat) {
    forall m | k < m < |run| :: !run[m].1.RetryFails? && !run[m].1.Finally?
  }

  ghost predicate CameLateAt(s: State, run: seq<Occurrence>, k: nat, request: nat) {
    k < |run| && ArrivesLate(Run(s, run[..k]), run[k].1, request) && Undisturbed(run, k)
  }

  /** The request arrived late in the cycle that is open, and the leader's retry has not failed since. */
  ghost predicate CameLate(s: State, run: seq<Occurrence>, request: nat) {
    exists k: nat :: CameLateAt(s, run, k, request)
  }

  lemma {:induction false} OnlyLeader(s: State, leader: nat)
    requires Consistent(s) && leader < |s.requests| && s.requests[leader].Leading?
    ensures Flushed(s) <==> s.requests[leader].stage != Refreshing
  {
  }

  /** Nothing but its own end takes a flushed cycle back. */
  lemma {:induction false} StepKeepsFlushed(s: State, leader: nat, e: Event)
    requires Consistent(s) && Enabled(s, leader, e) && Flushed(s) && !e.Finally?
    ensures Flushed(Step(s, leader, e)) && !e.RefreshSucceeds? && !e.RefreshFails?
  {
    var i :| 0 <= i < |s.requests| && s.requests[i].Leading? && s.requests[i].stage != Refreshing;
    var t := Step(s, leader, e);
    if e.Unauthorized? || e.TokenChanges? {
      assert t.requests[i] == s.requests[i];
    } else {
      assert i == leader;
      assert t.requests[i].Leading?;
    }
  }

  ghost predicate OpenFrom(run: seq<Occurrence>, k: nat) {
    forall m | k <= m < |run| :: !run[m].1.Finally?
  }

  lemma {:induction false} OpenPrefix(run: seq<Occurrence>, k: nat)
    requires OpenFrom(run, k) && k < |run|
    ensures var n := |run| - 1;
      OpenFrom(run[..n], k) && !run[n].1.Finally? && run[..n][..k] == run[..k]
  {
  }

  lemma {:induction false} StaysFlushed(s: State, run: seq<Occurrence>, k: nat)
    requires Consistent(s) && Possible(s, run) && k <= |run| && Flushed(Run(s, run[..k]))
    requires OpenFrom(run, k)
    ensures Flushed(Run(s, run))
  {
    if k == |run| {
      assert run[..k] == run;
    } else {
      var n := |run| - 1;
      PossiblePrefix(s, run);
      OpenPrefix(run, k);
      StaysFlushed(s, run[..n], k);
      LastKeepsFlushed(s, run);
    }
  }

  lemma {:induction false} LastKeepsFlushed(s: State, run: seq<Occurrence>)
    requires Consistent(s) && Possible(s, run) && run != []
    requires Flushed(Run(s, run[..|run| - 1])) && !run[|run| - 1].1.Finally?
    ensures Flushed(Run(s, run))
  {
    var n := |run| - 1;
    PossiblePrefix(s, run);
    RefreshIsSingleFlight(s, run[..n]);
    StepKeepsFlushed(Run(s, run[..n]), run[n].0, run[n].1);
  }

  lemma {:induction false} CameLateIsFlushed(s: State, run: seq<Occurrence>, k: nat, request: nat)
    requires Consistent(s) && Possible(s, run) && CameLateAt(s, run, k, request)
    ensures Flushed(Run(s, run))
  {
    assert OpenFrom(run, k) by { assert !run[k].1.Finally?; }
    StaysFlushed(s, run, k);
  }

  /** How one more step changes who came late. */
  lemma {:induction false} CameLateStep(s: State, run: seq<Occurrence>, request: nat)
    requires run != []
    ensures var n := |run| - 1;
      CameLate(s, run, request) <==>
        (CameLate(s, run[..n], request) && !run[n].1.RetryFails? && !run[n].1.Finally?)
        || ArrivesLate(Run(s, run[..n]), run[n].1, request)
  {
    var n := |run| - 1;
    if CameLate(s, run, request) {
      var k: nat :| CameLateAt(s, run, k, request);
      if k < n {
        CameLateInPrefix(s, run, k, request);
      }
    }
    if CameLate(s, run[..n], request) && !run[n].1.RetryFails? && !run[n].1.Finally? {
      var k: nat :| CameLateAt(s, run[..n], k, request);
      CameLateInPrefix(s, run, k, request);
    }
    if ArrivesLate(Run(s, run[..n]), run[n].1, request) {
      assert CameLateAt(s, run, n, request);
    }
  }

  lemma {:induction false} CameLateInPrefix(s: State, run: seq<Occurrence>, k: nat, request: nat)
    requires run != [] && k < |run| - 1
    ensures var n := |run| - 1;
      CameLateAt(s, run, k, request) <==> CameLateAt(s, run[..n], k, request) && !run[n].1.RetryFails? && !run[n].1.Finally?
  {
    var n := |run| - 1;
    var front := run[..n];
    assert front[..k] == run[..k];
    if Undisturbed(front, k) && !run[n].1.RetryFails? && !run[n].1.Finally? {
      forall m | k < m < |run| ensures !run[m].1.RetryFails? && !run[m].1.Finally? {
        assert m < n ==> front[m] == run[m];
      }
    }
    if Undisturbed(run, k) {
      forall m | k < m < n ensures !front[m].1.RetryFails? && !front[m].1.Finally? {
        assert front[m] == run[m];
      }
    }
  }

  predicate Waits(s: State, request: nat) {
    request < |s.requests| && s.requests[request].Queued?
  }

  lemma {:induction false} SettlingEmptiesTheQueue(s: State, leader: nat, e: Event, request: nat)
    requires Consistent(s) && Enabled(s, leader, e) && (e.RefreshSucceeds? || e.RefreshFails? || e.RetryFails?)
    ensures !Waits(Step(s, leader, e), request)
  {
  }

  lemma {:induction false} OtherStepsKeepWaiters(s: State, leader: nat, e: Event, request: nat)
    requires Consistent(s) && Enabled(s, leader, e) && (e.RetrySucceeds? || e.Finally? || e.TokenChanges?)
    ensures Waits(Step(s, leader, e), request) <==> Waits(s, request)
  {
  }

  lemma {:induction false} ArrivalWaits(s: State, leader: nat, request: nat)
    requires Consistent(s) && Flushed(s)
    ensures Waits(Step(s, leader, Unauthorized), request) <==> Waits(s, request) || ArrivesLate(s, Unauthorized, request)
  {
  }

  /** No request has come late in a cycle whose queue was not flushed. */
  lemma {:induction false} NobodyLateBefore(s: State, run: seq<Occurrence>, request: nat)
    requires Consistent(s) && Possible(s, run) && !Flushed(Run(s, run))
    ensures !CameLate(s, run, request)
  {
    if CameLate(s, run, request) {
      var k: nat :| CameLateAt(s, run, k, request);
      CameLateIsFlushed(s, run, k, request);
    }
  }

  lemma {:induction false} FlushedBefore(s: State, leader: nat, e: Event)
    requires Consistent(s) && Enabled(s, leader, e) && Flushed(Step(s, leader, e)) && !e.RefreshSucceeds? && !e.RefreshFails?
    ensures Flushed(s) && !e.Finally?
  {
    var t := Step(s, leader, e);
    var i :| 0 <= i < |t.requests| && t.requests[i].Leading? && t.requests[i].stage != Refreshing;
    if e.RetrySucceeds? || e.RetryFails? {
      assert s.requests[leader].stage == Retrying;
    } else {
      assert i < |s.requests| && s.requests[i] == t.requests[i];
    }
  }

  /** Once the open cycle has flushed the queue, exactly those wait who came late. */
  lemma {:induction false} WaitersAreLate(s: State, run: seq<Occurrence>, request: nat)
    requires Consistent(s) && !s.isRefreshing && Possible(s, run) && Flushed(Run(s, run))
    ensures Waits(Run(s, run), request) <==> CameLate(s, run, request)
  {
    if run != [] {
      var n := |run| - 1;
      var front, leader, e := run[..n], run[n].0, run[n].1;
      var before := Run(s, front);
      PossiblePrefix(s, run);
      RefreshIsSingleFlight(s, front);
      CameLateStep(s, run, request);
      if e.RefreshSucceeds? || e.RefreshFails? {
        OnlyLeader(before, leader);
        NobodyLateBefore(s, front, request);
        SettlingEmptiesTheQueue(before, leader, e, request);
      } else {
        FlushedBefore(before, leader, e);
        WaitersAreLate(s, front, request);
        match e {
          case RetryFails => SettlingEmptiesTheQueue(before, leader, e, request);
          case Unauthorized => ArrivalWaits(before, leader, request);
          case _ => OtherStepsKeepWaiters(before, leader, e, request);
        }
      }
    }
  }

  /**
   In every run a request is left waiting when its cycle closes if and only if it came back with 401, with
   a token stored, while the leader of that cycle was retrying or about to close, and no failure of the
   retry followed. Nothing is in flight then that could settle it.
   */
  lemma {:induction false} StrandedIffLate(s: State, run: seq<Occurrence>, leader: nat, request: nat)
    requires Consistent(s) && !s.isRefreshing && Possible(s, run) && Enabled(Run(s, run), leader, Finally)
    ensures var t := Step(Run(s, run), leader, Finally);
      && !t.isRefreshing && (forall i | 0 <= i < |t.requests| :: !t.requests[i].Leading?)
      && (Waits(t, request) <==> CameLate(s, run, request))
  {
    RefreshIsSingleFlight(s, run);
    OnlyLeader(Run(s, run), leader);
    WaitersAreLate(s, run, request);
    OtherStepsKeepWaiters(Run(s, run), leader, Finally, request);
  }

  lemma {:induction false} Extend(s: State, run: seq<Occurrence>, leader: nat, e: Event) returns (longer: seq<Occurrence>)
    requires Possible(s, run) && Enabled(Run(s, run), leader, e)
    ensures longer == run + [(leader, e)]
    ensures Possible(s, longer) && Run(s, longer) == Step(Run(s, run), leader, e)
  {
    longer := run + [(leader, e)];
    assert longer[..|run|] == run;
    forall i | 0 <= i < |longer| ensures Enabled(Run(s, longer[..i]), longer[i].0, longer[i].1) {
      if i < |run| {
        assert longer[..i] == run[..i];
      }
    }
  }

  /**
   So "not refreshing" does not imply an empty queue: a waiter that comes during the leader's retry
   outlives the cycle.
   */
  lemma {:induction false} LateWaiterIsStranded(start: State, newToken: string) returns (run: seq<Occurrence>)
    requires start.token != "" && !start.isRefreshing && start.queue == [] && start.requests == []
    requires Text.Trim(newToken) != ""
    ensures Possible(start, run)
    ensures Run(start, run) == State(false, [1], Text.Trim(newToken), [Settled(Served), Queued])
  {
    var token := Text.Trim(newToken);
    LeaderRetries(start, newToken);
    WaiterQueues(token);
    LeaderCloses(token);
    run := [];
    run := Extend(start, run, 0, Unauthorized);
    run := Extend(start, run, 0, RefreshSucceeds(newToken));
    run := Extend(start, run, 0, Unauthorized);
    run := Extend(start, run, 0, RetrySucceeds);
    run := Extend(start, run, 0, Finally);
  }

  lemma {:induction false} LeaderRetries(start: State, newToken: string)
    requires start.token != "" && !start.isRefreshing && start.queue == [] && start.requests == []
    ensures Step(start, 0, Unauthorized) == State(true, [], start.token, [Leading(Refreshing)])
    ensures Step(State(true, [], start.token, [Leading(Refreshing)]), 0, RefreshSucceeds(newToken))
         == State(true, [], Text.Trim(newToken), [Leading(Retrying)])
  {
  }

  lemma {:induction false} WaiterQueues(token: string)
    requires token != ""
    ensures Step(State(true, [], token, [Leading(Retrying)]), 0, Unauthorized)
         == State(true, [1], token, [Leading(Retrying), Queued])
  {
    assert |[Leading(Retrying)]| == 1;
  }

  lemma {:induction false} LeaderCloses(token: string)
    ensures Step(State(true, [1], token, [Leading(Retrying), Queued]), 0, RetrySucceeds)
         == State(true, [1], token, [Leading(Closing(Served)), Queued])
    ensures Step(State(true, [1], token, [Leading(Closing(Served)), Queued]), 0, Finally)
         == State(false, [1], token, [Settled(Served), Queued])
  {
  }
}
