/**
 The queue in front of the verifier (HttpFieldVerifier.ts): `verify` chains each job onto the promise
 of the job before it, whether that one resolves or rejects.
 */
module VerifierQueue {
  import opened Wrappers
  import opened VerifierRetry

  /** A job's own promise, and the tail promise that follows it and never rejects. */
  datatype Phase<V> = Queued | Active | Settled(outcome: Result<V, VerificationFailed>)

  datatype Job<I, V> = Job(input: I, phase: Phase<V>, tailDone: bool)

  datatype Event<I> =
    | Verify(input: I)      // a caller calls verify
    | Start(job: nat)       // the tail before the job is done, its handler runs verifySerial
    | Finish(job: nat)      // verifySerial settles, resolve or reject is called
    | ReleaseTail(job: nat) // the tail promise of the job is done

  /** How verifySerial serves an input in a given job. */
  type Server<!I, !V> = (I, nat) -> Service<V>

  /** What the promise chain allows next: it looks only at a job and the one before it. */
  predicate Enabled<I, V>(jobs: seq<Job<I, V>>, e: Event<I>) {
    match e
    case Verify(_) => true
    case Start(i) => i < |jobs| && jobs[i].phase.Queued? && (i == 0 || jobs[i - 1].tailDone)
    case Finish(i) => i < |jobs| && jobs[i].phase.Active?
    case ReleaseTail(i) => i < |jobs| && jobs[i].phase.Settled? && !jobs[i].tailDone
  }

  function Step<I, V>(server: Server<I, V>, jobs: seq<Job<I, V>>, e: Event<I>): seq<Job<I, V>>
  {
    if !Enabled(jobs, e) then jobs
    else match e
    case Verify(input) => jobs + [Job(input, Queued, false)]
    case Start(i) => jobs[i := jobs[i].(phase := Active)]
    case Finish(i) => jobs[i := jobs[i].(phase := Settled(VerifySerially(server(jobs[i].input, i)).outcome))]
    case ReleaseTail(i) => jobs[i := jobs[i].(tailDone := true)]
  }

  // ----- the field and its handlers

  class HttpFieldVerifier<I, !V> {
    var jobs: seq<Job<I, V>>
    const server: Server<I, V>

    constructor (server: Server<I, V>)
      ensures jobs == [] && this.server == server
    {
      this.server := server;
      jobs := [];
    }

    /** Extends the chain by one link; the returned index names the caller's promise. */
    method Verify(input: I) returns (job: nat)
      modifies this`jobs
      ensures job == |old(jobs)| && jobs == Step(server, old(jobs), Event.Verify(input))
    {
      job := |jobs|;
      jobs := jobs + [Job(input, Queued, false)];
    }

    method OnTailDone(i: nat)
      requires Enabled(jobs, Start(i))
      modifies this`jobs
      ensures jobs == Step(server, old(jobs), Start(i))
    {
      jobs := jobs[i := jobs[i].(phase := Active)];
    }

    /** Runs the retry loop of the active job and settles its caller with the outcome. */
    method RunSerial(i: nat) returns (outcome: Result<V, VerificationFailed>)
      requires Enabled(jobs, Finish(i))
      modifies this`jobs
      ensures jobs == Step(server, old(jobs), Finish(i)) && jobs[i].phase == Settled(outcome)
    {
      var trace;
      outcome, trace := VerifySerial(server(jobs[i].input, i));
      jobs := jobs[i := jobs[i].(phase := Settled(outcome))];
    }

    method OnSettled(i: nat)
      requires Enabled(jobs, ReleaseTail(i))
      modifies this`jobs
      ensures jobs == Step(server, old(jobs), ReleaseTail(i))
    {
      jobs := jobs[i := jobs[i].(tailDone := true)];
    }
  }

  // ----- what every run keeps

  /**
   The jobs before `front` are settled and released, with their own outcomes; those after it have not
   started; the one at `front` is at most started, or settled and not yet released.
   */
  ghost predicate Serialized<I, V>(server: Server<I, V>, jobs: seq<Job<I, V>>, front: nat) {
    && front <= |jobs|
    && (forall i | 0 <= i < |jobs| && jobs[i].phase.Settled? ::
          jobs[i].phase.outcome == VerifySerially(server(jobs[i].input, i)).outcome)
    && (forall i | 0 <= i < front :: jobs[i].phase.Settled? && jobs[i].tailDone)
    && (forall i | front <= i < |jobs| :: !jobs[i].tailDone)
    && (forall i | front < i < |jobs| :: jobs[i].phase.Queued?)
  }

  function NextFront<I>(front: nat, e: Event<I>): nat {
    if e.ReleaseTail? then front + 1 else front
  }

  /** Only the front job can do anything, so the local rule of the chain serializes the whole queue. */
  lemma {:induction false} OnlyTheFrontMoves<I, V>(server: Server<I, V>, jobs: seq<Job<I, V>>, front: nat, e: Event<I>)
    requires Serialized(server, jobs, front) && Enabled(jobs, e)
    ensures e.Start? ==> e.job == front
    ensures e.Finish? ==> e.job == front
    ensures e.ReleaseTail? ==> e.job == front
  {
    match e
    case Verify(_) =>
    case Start(i) =>
      if i > 0 { assert jobs[i - 1].tailDone; }
    case Finish(i) =>
    case ReleaseTail(i) =>
  }

  lemma {:induction false} StepKeepsSerialized<I, V>(server: Server<I, V>, jobs: seq<Job<I, V>>, front: nat, e: Event<I>)
    requires Serialized(server, jobs, front) && Enabled(jobs, e)
    ensures Serialized(server, Step(server, jobs, e), NextFront(front, e))
  {
    OnlyTheFrontMoves(server, jobs, front, e);
  }

  /** The inputs of the calls of a run, in call order, and the jobs it starts and settles, in order. */
  function Calls<I>(events: seq<Event<I>>): seq<I> {
    if events == [] then []
    else
      var n := |events| - 1;
      Calls(events[..n]) + (if events[n].Verify? then [events[n].input] else [])
  }

  function Starts<I>(events: seq<Event<I>>): seq<nat> {
    if events == [] then []
    else
      var n := |events| - 1;
      Starts(events[..n]) + (if events[n].Start? then [events[n].job] else [])
  }

  function Finishes<I>(events: seq<Event<I>>): seq<nat> {
    if events == [] then []
    else
      var n := |events| - 1;
      Finishes(events[..n]) + (if events[n].Finish? then [events[n].job] else [])
  }

  function Run<I, V>(server: Server<I, V>, events: seq<Event<I>>): seq<Job<I, V>> {
    if events == [] then [] else Step(server, Run(server, events[..|events| - 1]), events[|events| - 1])
  }

  ghost predicate Possible<I, V>(server: Server<I, V>, events: seq<Event<I>>) {
    forall i | 0 <= i < |events| :: Enabled(Run(server, events[..i]), events[i])
  }

  lemma {:induction false} PossiblePrefix<I, V>(server: Server<I, V>, events: seq<Event<I>>)
    requires events != [] && Possible(server, events)
    ensures var front := events[..|events| - 1];
      Possible(server, front) && Enabled(Run(server, front), events[|events| - 1])
  {
    var front := events[..|events| - 1];
    forall i | 0 <= i < |front| ensures Enabled(Run(server, front[..i]), front[i]) {
      assert front[..i] == events[..i];
    }
  }

  function Upto(n: nat): seq<nat> {
    seq(n, i requires 0 <= i < n => i)
  }

  function Inputs<I, V>(jobs: seq<Job<I, V>>): seq<I> {
    seq(|jobs|, i requires 0 <= i < |jobs| => jobs[i].input)
  }

  /** The jobs started so far, given the front. */
  function Started<I, V>(jobs: seq<Job<I, V>>, front: nat): nat {
    if front < |jobs| && !jobs[front].phase.Queued? then front + 1 else front
  }

  function Finished<I, V>(jobs: seq<Job<I, V>>, front: nat): nat {
    if front < |jobs| && jobs[front].phase.Settled? then front + 1 else front
  }

  /** What a step adds to the logs is the next job. */
  lemma {:induction false} StepAdvancesTheLogs<I, V>(server: Server<I, V>, jobs: seq<Job<I, V>>, front: nat, e: Event<I>)
    requires Serialized(server, jobs, front) && Enabled(jobs, e)
    ensures var next, nextFront := Step(server, jobs, e), NextFront(front, e);
      && Inputs(next) == Inputs(jobs) + (if e.Verify? then [e.input] else [])
      && Upto(Started(next, nextFront)) == Upto(Started(jobs, front)) + (if e.Start? then [e.job] else [])
      && Upto(Finished(next, nextFront)) == Upto(Finished(jobs, front)) + (if e.Finish? then [e.job] else [])
  {
    OnlyTheFrontMoves(server, jobs, front, e);
  }

  /** The logs of a run match its queue. */
  ghost predicate Fifo<I, V>(server: Server<I, V>, events: seq<Event<I>>, front: nat) {
    var jobs := Run(server, events);
    && Serialized(server, jobs, front)
    && Inputs(jobs) == Calls(events)
    && Starts(events) == Upto(Started(jobs, front))
    && Finishes(events) == Upto(Finished(jobs, front))
  }

  /**
   In every run: starts are the jobs 0, 1, 2, ... in call order, and so are the settlements, so each
   job starts once and each caller settles once; job i serves the i-th call's input.
   */
  lemma {:induction false} RunsAreFifo<I, V>(server: Server<I, V>, events: seq<Event<I>>) returns (front: nat)
    requires Possible(server, events)
    ensures Fifo(server, events, front)
  {
    if events == [] {
      front := 0;
    } else {
      var n := |events| - 1;
      PossiblePrefix(server, events);
      front := RunsAreFifo(server, events[..n]);
      StepKeepsSerialized(server, Run(server, events[..n]), front, events[n]);
      StepAdvancesTheLogs(server, Run(server, events[..n]), front, events[n]);
      front := NextFront(front, events[n]);
    }
  }

  /** At most one verification is active, in every reachable state. */
  lemma {:induction false} AtMostOneActive<I, V>(server: Server<I, V>, events: seq<Event<I>>, i: nat, j: nat)
    requires Possible(server, events) && i < |Run(server, events)| && j < |Run(server, events)|
    requires Run(server, events)[i].phase.Active? && Run(server, events)[j].phase.Active?
    ensures i == j
  {
    var front := RunsAreFifo(server, events);
  }

  lemma {:induction false} StepKeepsOutcome<I, V>(server: Server<I, V>, jobs: seq<Job<I, V>>, e: Event<I>, i: nat)
    requires Enabled(jobs, e) && i < |jobs| && jobs[i].phase.Settled?
    ensures i < |Step(server, jobs, e)| && Step(server, jobs, e)[i].phase == jobs[i].phase
  {
  }

  /** A settled caller keeps its own input's outcome over the rest of the run. */
  lemma {:induction false} OutcomesAreFinal<I, V>(server: Server<I, V>, events: seq<Event<I>>, n: nat, i: nat)
    requires Possible(server, events) && n <= |events|
    requires i < |Run(server, events[..n])| && Run(server, events[..n])[i].phase.Settled?
    ensures i < |Run(server, events)| && Run(server, events)[i].phase == Run(server, events[..n])[i].phase
    ensures Run(server, events)[i].phase.outcome == VerifySerially(server(Run(server, events)[i].input, i)).outcome
  {
    if n == |events| {
      assert events[..n] == events;
    } else {
      var front := events[..|events| - 1];
      PossiblePrefix(server, events);
      assert front[..n] == events[..n];
      OutcomesAreFinal(server, front, n, i);
      StepKeepsOutcome(server, Run(server, front), events[|events| - 1], i);
    }
    var front := RunsAreFifo(server, events);
  }

  // ----- no failure blocks the queue

  /** The handler runs still owed: three per job that has not started, fewer afterwards. */
  function Owed<I, V>(jobs: seq<Job<I, V>>): nat {
    if jobs == [] then 0
    else
      var last := jobs[|jobs| - 1];
      Owed(jobs[..|jobs| - 1])
      + (if last.tailDone then 0 else match last.phase case Queued => 3 case Active => 2 case Settled(_) => 1)
  }

  lemma {:induction false} OwedUpdate<I, V>(jobs: seq<Job<I, V>>, i: nat, job: Job<I, V>)
    requires i < |jobs|
    ensures Owed(jobs[i := job]) - Owed(jobs) == Owed([job]) - Owed([jobs[i]])
  {
    var n := |jobs| - 1;
    assert [job][..0] == [] && [jobs[i]][..0] == [];
    if i < n {
      assert jobs[i := job][..n] == jobs[..n][i := job];
      OwedUpdate(jobs[..n], i, job);
    } else {
      assert jobs[i := job][..n] == jobs[..n];
    }
  }

  /** As long as a caller is waiting, some step other than a new call is possible, whatever failed before. */
  lemma {:induction false} QueueAlwaysMoves<I, V>(server: Server<I, V>, events: seq<Event<I>>, i: nat) returns (e: Event<I>)
    requires Possible(server, events) && i < |Run(server, events)| && !Run(server, events)[i].phase.Settled?
    ensures !e.Verify? && Enabled(Run(server, events), e)
  {
    var jobs := Run(server, events);
    var front := RunsAreFifo(server, events);
    e := match jobs[front].phase
      case Queued => Start(front)
      case Active => Finish(front)
      case Settled(_) => ReleaseTail(front);
  }

  /** Every such step brings the queue closer to empty, so every caller is eventually settled. */
  lemma {:induction false} StepsShrinkTheQueue<I, V>(server: Server<I, V>, jobs: seq<Job<I, V>>, front: nat, e: Event<I>)
    requires Serialized(server, jobs, front) && Enabled(jobs, e) && !e.Verify?
    ensures Owed(Step(server, jobs, e)) == Owed(jobs) - 1
  {
    OnlyTheFrontMoves(server, jobs, front, e);
    var next := Step(server, jobs, e);
    assert next == jobs[front := next[front]];
    OwedUpdate(jobs, front, next[front]);
    assert [jobs[front]][..0] == [] && [next[front]][..0] == [];
  }
}
