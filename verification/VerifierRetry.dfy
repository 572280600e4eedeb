/**
 One serialized verification (HttpFieldVerifier.ts): at most three posts, each retry after a wait and
 only behind a successful health check and a connection error.
 */
module VerifierRetry {
  import opened Wrappers

  const MAX_RETRIES := 3

  /**
   What the service would answer, to the health check before an attempt and to the post of an attempt,
   and which error messages count as connection errors.
   */
  datatype Service<!V> = Service(healthy: nat -> bool, post: nat -> Result<V, string>, isConnectionError: string -> bool)

  datatype Action<V> =
    | Wait
    | HealthCheck(ok: bool)
    | Post(answer: Result<V, string>)

  predicate Contains(s: string, part: string) {
    part <= s || (s != "" && Contains(s[1..], part))
  }

  predicate IsConnectionError(message: string) {
    || Contains(message, "ECONNREFUSED")
    || Contains(message, "ECONNRESET")
    || Contains(message, "socket hang up")
    || Contains(message, "Network is unreachable")
    || Contains(message, "timeout")
  }

  function HttpService<V>(healthy: nat -> bool, post: nat -> Result<V, string>): Service<V> {
    Service(healthy, post, IsConnectionError)
  }

  /** The error thrown in the end; its message quotes the last error, or "unknown" when there is none. */
  datatype VerificationFailed = VerificationFailed(lastError: Option<string>)

  datatype Served<V> = Served(outcome: Result<V, VerificationFailed>, trace: seq<Action<V>>)

  function BeforePost<V>(attempt: nat, trace: seq<Action<V>>): seq<Action<V>> {
    if attempt > 0 then trace + [Wait, HealthCheck(true)] else trace
  }

  function Reported<V>(answer: Result<V, string>): Result<V, VerificationFailed> {
    match answer
    case Success(value) => Success(value)
    case Failure(error) => Failure(VerificationFailed(Some(error)))
  }

  /** The retry loop from `attempt` on, with what it has done so far. */
  function Attempts<V>(service: Service<V>, attempt: nat, lastError: Option<string>, trace: seq<Action<V>>): Served<V>
    decreases MAX_RETRIES - attempt
  {
    if attempt >= MAX_RETRIES then Served(Failure(VerificationFailed(lastError)), trace)
    else if attempt > 0 && !service.healthy(attempt) then
      Attempts(service, attempt + 1, lastError, trace + [Wait, HealthCheck(false)])
    else
      var before := BeforePost(attempt, trace);
      var answer := service.post(attempt);
      if answer.Failure? && service.isConnectionError(answer.error)
      then Attempts(service, attempt + 1, Some(answer.error), before + [Post(answer)])
      else Served(Reported(answer), before + [Post(answer)])
  }

  function VerifySerially<V>(service: Service<V>): Served<V> {
    Attempts(service, 0, None, [])
  }

  method VerifySerial<V>(service: Service<V>) returns (outcome: Result<V, VerificationFailed>, trace: seq<Action<V>>)
    ensures Served(outcome, trace) == VerifySerially(service)
  {
    var lastError: Option<string> := None;
    trace := [];
    for attempt := 0 to MAX_RETRIES
      invariant VerifySerially(service) == Attempts(service, attempt, lastError, trace)
    {
      if attempt > 0 {
        trace := trace + [Wait, HealthCheck(service.healthy(attempt))];
        if !service.healthy(attempt) {
          continue;
        }
      }
      var answer := service.post(attempt);
      trace := trace + [Post(answer)];
      if answer.Success? {
        return Success(answer.value), trace;
      }
      lastError := Some(answer.error);
      if !service.isConnectionError(answer.error) {
        break;
      }
    }
    outcome := Failure(VerificationFailed(lastError));
  }

  // ----- what every verification does

  function Posts<V>(trace: seq<Action<V>>): nat {
    if trace == [] then 0 else Posts(trace[..|trace| - 1]) + (if trace[|trace| - 1].Post? then 1 else 0)
  }

  /** The attempts spent: posts, and retries given up because of a failed health check. */
  function Spent<V>(trace: seq<Action<V>>): nat {
    if trace == [] then 0
    else Spent(trace[..|trace| - 1]) + (if trace[|trace| - 1].Post? || trace[|trace| - 1] == HealthCheck(false) then 1 else 0)
  }

  /** A post is the first action, or comes right after a wait and a successful health check. */
  ghost predicate Guarded<V>(trace: seq<Action<V>>) {
    forall i | 0 <= i < |trace| && trace[i].Post? ::
      i == 0 || (i >= 2 && trace[i - 1] == HealthCheck(true) && trace[i - 2] == Wait)
  }

  ghost predicate ConnectionFailure<V>(service: Service<V>, a: Action<V>) {
    a.Post? ==> a.answer.Failure? && service.isConnectionError(a.answer.error)
  }

  /** Every post in the trace failed with a connection error. */
  ghost predicate AllConnectionFailures<V>(service: Service<V>, trace: seq<Action<V>>) {
    forall i | 0 <= i < |trace| :: ConnectionFailure(service, trace[i])
  }

  ghost predicate StartsWithPost<V>(trace: seq<Action<V>>) {
    trace != [] && trace[0].Post?
  }

  /** The message of the last post. */
  function LastError<V>(trace: seq<Action<V>>): Option<string> {
    if trace == [] then None
    else
      var a := trace[|trace| - 1];
      if a.Post? && a.answer.Failure? then Some(a.answer.error) else LastError(trace[..|trace| - 1])
  }

  lemma {:induction false} SpentBoundsPosts<V>(trace: seq<Action<V>>)
    ensures Posts(trace) <= Spent(trace)
  {
    if trace != [] {
      SpentBoundsPosts(trace[..|trace| - 1]);
    }
  }

  lemma {:induction false} CountSnoc<V>(trace: seq<Action<V>>, a: Action<V>)
    ensures Posts(trace + [a]) == Posts(trace) + (if a.Post? then 1 else 0)
    ensures Spent(trace + [a]) == Spent(trace) + (if a.Post? || a == HealthCheck(false) then 1 else 0)
    ensures LastError(trace + [a]) == if a.Post? && a.answer.Failure? then Some(a.answer.error) else LastError(trace)
  {
    assert (trace + [a])[..|trace|] == trace;
  }

  /** The loop's state so far: guarded posts, all of them connection failures, no more than the attempts made. */
  ghost predicate SoFar<V>(service: Service<V>, attempt: nat, lastError: Option<string>, trace: seq<Action<V>>) {
    && Guarded(trace) && AllConnectionFailures(service, trace) && Spent(trace) == attempt
    && lastError == LastError(trace)
    && (if attempt == 0 then trace == [] else StartsWithPost(trace))
  }

  /** A finished verification. */
  ghost predicate WellServed<V>(service: Service<V>, s: Served<V>) {
    && StartsWithPost(s.trace) && Guarded(s.trace) && Posts(s.trace) <= MAX_RETRIES
    && AllConnectionFailures(service, s.trace[..|s.trace| - 1])
    && match s.outcome
       case Success(value) => s.trace[|s.trace| - 1] == Post(Success(value))
       case Failure(error) =>
         error == VerificationFailed(LastError(s.trace)) && LastError(s.trace).Some?
         && !(s.trace[|s.trace| - 1].Post? && s.trace[|s.trace| - 1].answer.Success?)
         && (ConnectionFailure(service, s.trace[|s.trace| - 1]) ==> Spent(s.trace) == MAX_RETRIES)
  }

  lemma {:induction false} HealthCheckedSoFar<V>(service: Service<V>, attempt: nat, lastError: Option<string>, trace: seq<Action<V>>, ok: bool)
    requires SoFar(service, attempt, lastError, trace) && attempt > 0
    ensures var next := trace + [Wait, HealthCheck(ok)];
      Guarded(next) && AllConnectionFailures(service, next) && Spent(next) == Spent(trace) + (if ok then 0 else 1)
      && LastError(next) == lastError && StartsWithPost(next)
  {
    CountSnoc(trace, Wait);
    CountSnoc(trace + [Wait], HealthCheck(ok));
    assert trace + [Wait] + [HealthCheck(ok)] == trace + [Wait, HealthCheck(ok)];
  }

  lemma {:induction false} PostedSoFar<V>(service: Service<V>, before: seq<Action<V>>, answer: Result<V, string>)
    requires Guarded(before) && AllConnectionFailures(service, before)
    requires before == [] || (|before| >= 2 && StartsWithPost(before)
      && before[|before| - 1] == HealthCheck(true) && before[|before| - 2] == Wait)
    ensures var next := before + [Post(answer)];
      && Guarded(next) && Spent(next) == Spent(before) + 1 && StartsWithPost(next)
      && next[..|next| - 1] == before
      && (answer.Failure? ==> LastError(next) == Some(answer.error))
      && (answer.Failure? && service.isConnectionError(answer.error) ==> AllConnectionFailures(service, next))
  {
    var next := before + [Post(answer)];
    CountSnoc(before, Post(answer));
    assert next[..|next| - 1] == before;
    if before == [] { assert next[0] == Post(answer); }
  }

  lemma {:induction false} FirstPostHasError<V>(service: Service<V>, trace: seq<Action<V>>)
    requires StartsWithPost(trace) && AllConnectionFailures(service, trace)
    ensures LastError(trace).Some?
  {
    assert ConnectionFailure(service, trace[0]);
    if |trace| > 1 {
      FirstPostHasError(service, trace[..|trace| - 1]);
    }
  }

  /** The trace before an attempt's post: nothing, or ending in a wait and a successful health check. */
  ghost predicate ReadyToPost<V>(service: Service<V>, before: seq<Action<V>>) {
    && Guarded(before) && AllConnectionFailures(service, before) && Spent(before) < MAX_RETRIES
    && (before == [] || (|before| >= 2 && StartsWithPost(before)
          && before[|before| - 1] == HealthCheck(true) && before[|before| - 2] == Wait))
  }

  lemma {:induction false} LastPostIsServed<V>(service: Service<V>, before: seq<Action<V>>, answer: Result<V, string>)
    requires ReadyToPost(service, before)
    requires answer.Success? || !service.isConnectionError(answer.error)
    ensures WellServed(service, Served(Reported(answer), before + [Post(answer)]))
  {
    PostedSoFar(service, before, answer);
    SpentBoundsPosts(before + [Post(answer)]);
  }

  lemma {:induction false} ExhaustedIsServed<V>(service: Service<V>, attempt: nat, lastError: Option<string>, trace: seq<Action<V>>)
    requires SoFar(service, attempt, lastError, trace) && attempt == MAX_RETRIES
    ensures WellServed(service, Served(Failure(VerificationFailed(lastError)), trace))
  {
    FirstPostHasError(service, trace);
    SpentBoundsPosts(trace);
    assert ConnectionFailure(service, trace[|trace| - 1]);
  }

  lemma {:induction false} AttemptIsReady<V>(service: Service<V>, attempt: nat, lastError: Option<string>, trace: seq<Action<V>>)
    requires SoFar(service, attempt, lastError, trace) && attempt < MAX_RETRIES
    ensures ReadyToPost(service, BeforePost(attempt, trace)) && Spent(BeforePost(attempt, trace)) == attempt
  {
    if attempt > 0 {
      HealthCheckedSoFar(service, attempt, lastError, trace, true);
    }
  }

  lemma {:induction false} ConnectionErrorSoFar<V>(service: Service<V>, attempt: nat, before: seq<Action<V>>, error: string)
    requires ReadyToPost(service, before) && Spent(before) == attempt && service.isConnectionError(error)
    ensures SoFar(service, attempt + 1, Some(error), before + [Post(Failure(error))])
  {
    PostedSoFar(service, before, Failure(error));
  }

  lemma {:induction false} SkippedSoFar<V>(service: Service<V>, attempt: nat, lastError: Option<string>, trace: seq<Action<V>>)
    requires SoFar(service, attempt, lastError, trace) && attempt > 0
    ensures SoFar(service, attempt + 1, lastError, trace + [Wait, HealthCheck(false)])
  {
    HealthCheckedSoFar(service, attempt, lastError, trace, false);
  }

  lemma {:induction false} RetriedAttempt<V>(service: Service<V>, attempt: nat, lastError: Option<string>, trace: seq<Action<V>>)
    requires attempt < MAX_RETRIES && (attempt > 0 ==> service.healthy(attempt))
    requires service.post(attempt).Failure? && service.isConnectionError(service.post(attempt).error)
    ensures Attempts(service, attempt, lastError, trace) ==
      Attempts(service, attempt + 1, Some(service.post(attempt).error), BeforePost(attempt, trace) + [Post(service.post(attempt))])
  {
  }

  lemma {:induction false} FinalAttempt<V>(service: Service<V>, attempt: nat, lastError: Option<string>, trace: seq<Action<V>>)
    requires attempt < MAX_RETRIES && (attempt > 0 ==> service.healthy(attempt))
    requires service.post(attempt).Success? || !service.isConnectionError(service.post(attempt).error)
    ensures Attempts(service, attempt, lastError, trace) ==
      Served(Reported(service.post(attempt)), BeforePost(attempt, trace) + [Post(service.post(attempt))])
  {
  }

  lemma {:induction false} SkippedAttempt<V>(service: Service<V>, attempt: nat, lastError: Option<string>, trace: seq<Action<V>>)
    requires 0 < attempt < MAX_RETRIES && !service.healthy(attempt)
    ensures Attempts(service, attempt, lastError, trace) == Attempts(service, attempt + 1, lastError, trace + [Wait, HealthCheck(false)])
  {
  }

  lemma {:induction false} NoAttemptLeft<V>(service: Service<V>, lastError: Option<string>, trace: seq<Action<V>>)
    ensures Attempts(service, MAX_RETRIES, lastError, trace) == Served(Failure(VerificationFailed(lastError)), trace)
  {
  }

  predicate IsRetried<V>(service: Service<V>, attempt: nat) {
    service.post(attempt).Failure? && service.isConnectionError(service.post(attempt).error)
  }

  /** The attempt makes a post, and the loop goes on behind it. */
  lemma {:induction false} RetryIsWellServed<V>(service: Service<V>, attempt: nat, lastError: Option<string>, trace: seq<Action<V>>)
    requires attempt < MAX_RETRIES && SoFar(service, attempt, lastError, trace)
    requires (attempt > 0 ==> service.healthy(attempt)) && IsRetried(service, attempt)
    ensures WellServed(service, Attempts(service, attempt, lastError, trace))
    decreases MAX_RETRIES - attempt, 0
  {
    var before, error := BeforePost(attempt, trace), service.post(attempt).error;
    AttemptIsReady(service, attempt, lastError, trace);
    ConnectionErrorSoFar(service, attempt, before, error);
    RetriedAttempt(service, attempt, lastError, trace);
    AttemptsAreWellServed(service, attempt + 1, Some(error), before + [Post(Failure(error))]);
  }

  /** The attempt makes the last post. */
  lemma {:induction false} FinalIsWellServed<V>(service: Service<V>, attempt: nat, lastError: Option<string>, trace: seq<Action<V>>)
    requires attempt < MAX_RETRIES && SoFar(service, attempt, lastError, trace)
    requires (attempt > 0 ==> service.healthy(attempt)) && !IsRetried(service, attempt)
    ensures WellServed(service, Attempts(service, attempt, lastError, trace))
  {
    AttemptIsReady(service, attempt, lastError, trace);
    LastPostIsServed(service, BeforePost(attempt, trace), service.post(attempt));
    FinalAttempt(service, attempt, lastError, trace);
  }

  /** The attempt makes no post, its health check having failed. */
  lemma {:induction false} SkipIsWellServed<V>(service: Service<V>, attempt: nat, lastError: Option<string>, trace: seq<Action<V>>)
    requires 0 < attempt < MAX_RETRIES && SoFar(service, attempt, lastError, trace) && !service.healthy(attempt)
    ensures WellServed(service, Attempts(service, attempt, lastError, trace))
    decreases MAX_RETRIES - attempt, 0
  {
    SkippedSoFar(service, attempt, lastError, trace);
    SkippedAttempt(service, attempt, lastError, trace);
    AttemptsAreWellServed(service, attempt + 1, lastError, trace + [Wait, HealthCheck(false)]);
  }

  lemma {:induction false} AttemptsAreWellServed<V>(service: Service<V>, attempt: nat, lastError: Option<string>, trace: seq<Action<V>>)
    requires attempt <= MAX_RETRIES && SoFar(service, attempt, lastError, trace)
    ensures WellServed(service, Attempts(service, attempt, lastError, trace))
    decreases MAX_RETRIES - attempt, 1
  {
    if attempt == MAX_RETRIES {
      ExhaustedIsServed(service, attempt, lastError, trace);
      NoAttemptLeft(service, lastError, trace);
    } else if attempt > 0 && !service.healthy(attempt) {
      SkipIsWellServed(service, attempt, lastError, trace);
    } else if IsRetried(service, attempt) {
      RetryIsWellServed(service, attempt, lastError, trace);
    } else {
      FinalIsWellServed(service, attempt, lastError, trace);
    }
  }

  /**
   Every verification posts first and at most three times; a later post comes only after a connection
   error on every earlier one and a successful health check; it succeeds exactly with the answer of its
   last post, and its failure carries the last error, never "unknown".
   */
  lemma {:induction false} EveryVerificationIsWellServed<V>(service: Service<V>)
    ensures WellServed(service, VerifySerially(service))
  {
    var start: seq<Action<V>> := [];
    AttemptsAreWellServed(service, 0, None, start);
  }

  /** An answer, or an error that is no connection error, to the first post ends the loop. */
  lemma {:induction false} FirstAnswerEndsTheLoop<V>(service: Service<V>)
    requires service.post(0).Success? || !service.isConnectionError(service.post(0).error)
    ensures VerifySerially(service) == Served(Reported(service.post(0)), [Post(service.post(0))])
  {
    var start: seq<Action<V>> := [];
    assert start + [Post(service.post(0))] == [Post(service.post(0))];
  }

  // ----- which errors are connection errors

  predicate MentionedAt(message: string, i: nat, cause: string) {
    i + |cause| <= |message| && message[i..i + |cause|] == cause
  }

  lemma {:induction false} MentionedLater(message: string, i: nat, cause: string)
    requires message != ""
    ensures MentionedAt(message, i + 1, cause) <==> MentionedAt(message[1..], i, cause)
  {
    if i + 1 + |cause| <= |message| {
      assert message[i + 1..i + 1 + |cause|] == message[1..][i..i + |cause|];
    }
  }

  lemma {:induction false} ContainsMentioned(message: string, cause: string, i: nat)
    requires MentionedAt(message, i, cause)
    ensures Contains(message, cause)
  {
    if i > 0 {
      MentionedLater(message, i - 1, cause);
      ContainsMentioned(message[1..], cause, i - 1);
    }
  }

  lemma {:induction false} ContainedIsMentioned(message: string, cause: string) returns (i: nat)
    requires Contains(message, cause)
    ensures MentionedAt(message, i, cause)
  {
    if cause <= message {
      i := 0;
    } else {
      i := ContainedIsMentioned(message[1..], cause);
      MentionedLater(message, i, cause);
      i := i + 1;
    }
  }

  /** `includes` finds its argument anywhere. */
  lemma {:induction false} ContainsIff(message: string, cause: string)
    ensures Contains(message, cause) <==> exists i: nat :: MentionedAt(message, i, cause)
  {
    if Contains(message, cause) {
      var i := ContainedIsMentioned(message, cause);
    }
    forall i: nat | MentionedAt(message, i, cause) ensures Contains(message, cause) {
      ContainsMentioned(message, cause, i);
    }
  }

  /** Over HTTP, every post but the last failed with an error that mentions one of the five causes. */
  lemma {:induction false} HttpRetriesOnConnectionErrorsOnly<V>(healthy: nat -> bool, post: nat -> Result<V, string>, i: nat)
    requires var trace := VerifySerially(HttpService(healthy, post)).trace; i < |trace| - 1 && trace[i].Post?
    ensures var a := VerifySerially(HttpService(healthy, post)).trace[i];
      a.answer.Failure? && IsConnectionError(a.answer.error)
  {
    var service := HttpService(healthy, post);
    EveryVerificationIsWellServed(service);
    var trace := VerifySerially(service).trace;
    assert ConnectionFailure(service, trace[..|trace| - 1][i]);
  }

  /** A refused connection is retried once the service is healthy again, and the second answer is the outcome. */
  lemma {:induction false} RefusedIsRetried<V>(healthy: nat -> bool, post: nat -> Result<V, string>, v: V)
    requires post(0).Failure? && IsConnectionError(post(0).error) && healthy(1) && post(1) == Success(v)
    ensures VerifySerially(HttpService(healthy, post)) ==
      Served(Success(v), [Post(post(0)), Wait, HealthCheck(true), Post(Success(v))])
  {
    var service := HttpService(healthy, post);
    var start: seq<Action<V>> := [];
    RetriedAttempt(service, 0, None, start);
    assert start + [Post(post(0))] == [Post(post(0))];
    FinalAttempt(service, 1, Some(post(0).error), [Post(post(0))]);
    assert [Post(post(0))] + [Wait, HealthCheck(true)] + [Post(post(1))] == [Post(post(0)), Wait, HealthCheck(true), Post(post(1))];
  }

  /** The five causes of a connection error. */
  lemma {:induction false} ConnectionErrorIff(message: string)
    ensures IsConnectionError(message) <==>
      || (exists i: nat :: MentionedAt(message, i, "ECONNREFUSED"))
      || (exists i: nat :: MentionedAt(message, i, "ECONNRESET"))
      || (exists i: nat :: MentionedAt(message, i, "socket hang up"))
      || (exists i: nat :: MentionedAt(message, i, "Network is unreachable"))
      || (exists i: nat :: MentionedAt(message, i, "timeout"))
  {
    ContainsIff(message, "ECONNREFUSED");
    ContainsIff(message, "ECONNRESET");
    ContainsIff(message, "socket hang up");
    ContainsIff(message, "Network is unreachable");
    ContainsIff(message, "timeout");
  }

  /** A verification makes one, two or three posts; three of them, or retries given up, before it fails on connection errors. */
  lemma {:induction false} AtMostThreePosts<V>(service: Service<V>)
    ensures var s := VerifySerially(service);
      && 1 <= Posts(s.trace) <= 3
      && (s.outcome.Failure? && AllConnectionFailures(service, s.trace) ==> Spent(s.trace) == 3)
  {
    EveryVerificationIsWellServed(service);
    PostsFromFirst(VerifySerially(service).trace);
  }

  lemma {:induction false} PostsFromFirst<V>(trace: seq<Action<V>>)
    requires StartsWithPost(trace)
    ensures Posts(trace) >= 1
  {
    if |trace| > 1 {
      PostsFromFirst(trace[..|trace| - 1]);
    } else {
      assert trace[..0] == [];
    }
  }
}
