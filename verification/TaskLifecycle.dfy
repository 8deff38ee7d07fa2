/**
  The life of one webhook event on the processing lanes: attempts, retries, dead-lettering and
  the worker's failure hook, and where the event ends up.
*/
module TaskLifecycle {
  import opened Wrappers
  import opened Retry

  // ----- What the environment does -----

  datatype Lane = ProcessEvent | ProcessInbound

  /** An attempt's unit of work; a failure may come after its transaction was committed. */
  datatype Work = Applies(mediaPending: bool) | Breaks(c: FailureClass, committed: bool)

  /** A write to a store that may fail before or after it has taken effect. */
  datatype Effect = Stores | FailsBefore | FailsAfter

  /** The failure hook first records the failure, then parks the work. */
  datatype Hook = Parks | RecordFails | ParkFails(stored: bool)

  datatype Conditions = Conditions(work: Work, deadLetter: Effect, enqueueFails: bool, hook: Hook, draw: real)

  // ----- Where the event is -----

  datatype Job = Started | Retrying | Success | Failure

  datatype State = State(applied: bool, deadLettered: nat, parked: nat, job: Job, executions: nat, waited: real)

  const START := State(false, 0, 0, Started, 0, 0.0)

  datatype Disposition = Returned | Raised | Requeue

  /** TrackedTask.on_failure, for a queue whose failures go to the dead-letter queue. */
  function OnFailure(s: State, hook: Hook): State {
    match hook
    case RecordFails => s
    case Parks => s.(job := Failure, parked := s.parked + 1)
    case ParkFails(stored) => s.(job := Failure, parked := if stored then s.parked + 1 else s.parked)
  }

  function DeadLetter(s: State, e: Effect): (State, Disposition) {
    match e
    case Stores => (s.(deadLettered := s.deadLettered + 1), Returned)
    case FailsBefore => (s, Raised)
    case FailsAfter => (s.(deadLettered := s.deadLettered + 1), Raised)
  }

  /** The task body: process_webhook_event or process_inbound_message. */
  function Body(lane: Lane, s: State, attempt: nat, x: Conditions, limit: Option<nat>): (State, Disposition) {
    match x.work
    case Applies(mediaPending) =>
      var t := s.(applied := true);
      if lane == ProcessInbound && mediaPending && x.enqueueFails then (t, Raised) else (t, Returned)
    case Breaks(c, committed) =>
      var t := if committed then s.(applied := true) else s;
      if !ShouldRetry(c, attempt) then DeadLetter(t, x.deadLetter)
      else if Requeued(c, attempt, limit) then (t.(waited := t.waited + x.draw), Requeue)
      else (t, Raised)   // the broker's own limit is reached: its retry call raises the error itself
  }

  /** One execution with its hooks. */
  function Execute(lane: Lane, s: State, attempt: nat, x: Conditions, limit: Option<nat>): (State, Disposition) {
    var (t, d) := Body(lane, s.(job := Started, executions := s.executions + 1), attempt, x, limit);
    match d
    case Returned => (t.(job := Success), d)
    case Requeue => (t.(job := Retrying), d)
    case Raised => (OnFailure(t, x.hook), d)
  }

  /** Execute until the task returns or raises. */
  function Final(lane: Lane, s: State, attempt: nat, env: nat -> Conditions, limit: Option<nat>): State
    decreases 10 - attempt
  {
    var (t, d) := Execute(lane, s, attempt, env(attempt), limit);
    if d == Requeue then Final(lane, t, attempt + 1, env, limit) else t
  }

  /** The attempt that ends the task. */
  function Last(env: nat -> Conditions, attempt: nat, limit: Option<nat>): nat
    decreases 10 - attempt
  {
    if env(attempt).work.Breaks? && Requeued(env(attempt).work.c, attempt, limit) then Last(env, attempt + 1, limit)
    else attempt
  }

  // ----- The worker, step by step -----

  class Worker {
    var state: State

    constructor ()
      ensures state == START
    {
      state := START;
    }

    /** TrackedTask.smart_retry: never returns normally. */
    method SmartRetry(c: FailureClass, attempt: nat, draw: real, limit: Option<nat>) returns (d: Disposition)
      modifies this
      ensures d == if Requeued(c, attempt, limit) then Requeue else Raised
      ensures state == if Requeued(c, attempt, limit) then old(state).(waited := old(state).waited + draw)
                       else old(state)
    {
      if !ShouldRetry(c, attempt) {
        return Raised;
      }
      if limit.Some? && attempt > limit.value {
        return Raised;
      }
      state := state.(waited := state.waited + draw);
      return Requeue;
    }

    method StoreDeadLetter(e: Effect) returns (d: Disposition)
      modifies this
      ensures (state, d) == DeadLetter(old(state), e)
    {
      if e != FailsBefore {
        state := state.(deadLettered := state.deadLettered + 1);
      }
      d := if e == Stores then Returned else Raised;
    }

    method Attempt(lane: Lane, attempt: nat, x: Conditions, limit: Option<nat>) returns (d: Disposition)
      modifies this
      ensures (state, d) == Execute(lane, old(state), attempt, x, limit)
    {
      state := state.(job := Started, executions := state.executions + 1);
      match x.work {
        case Applies(mediaPending) =>
          state := state.(applied := true);
          d := if lane == ProcessInbound && mediaPending && x.enqueueFails then Raised else Returned;
        case Breaks(c, committed) =>
          if committed {
            state := state.(applied := true);
          }
          if ShouldRetry(c, attempt) {
            d := SmartRetry(c, attempt, x.draw, limit);
          } else {
            d := StoreDeadLetter(x.deadLetter);
          }
      }
      match d {
        case Returned => state := state.(job := Success);
        case Requeue => state := state.(job := Retrying);
        case Raised =>
          if x.hook != RecordFails {
            state := state.(job := Failure);
            if x.hook == Parks || x.hook == ParkFails(true) {
              state := state.(parked := state.parked + 1);
            }
          }
      }
    }

    /** The broker runs the task again for as long as it asks for a retry. */
    method RunToEnd(lane: Lane, env: nat -> Conditions, limit: Option<nat>)
      requires state == START
      modifies this
      ensures state == Final(lane, START, 1, env, limit)
    {
      var attempt := 1;
      FinalStep(lane, state, attempt, env, limit);
      var d := Attempt(lane, attempt, env(attempt), limit);
      while d == Requeue
        invariant 1 <= attempt <= 10 && (d == Requeue ==> attempt < 10)
        invariant Final(lane, START, 1, env, limit) ==
                  if d == Requeue then Final(lane, state, attempt + 1, env, limit) else state
        decreases 10 - attempt, if d == Requeue then 1 else 0
      {
        attempt := attempt + 1;
        FinalStep(lane, state, attempt, env, limit);
        d := Attempt(lane, attempt, env(attempt), limit);
      }
    }
  }

  lemma FinalStep(lane: Lane, s: State, attempt: nat, env: nat -> Conditions, limit: Option<nat>)
    ensures var (t, d) := Execute(lane, s, attempt, env(attempt), limit);
            && (d == Requeue ==> attempt < 10)
            && Final(lane, s, attempt, env, limit) ==
               if d == Requeue then Final(lane, t, attempt + 1, env, limit) else t
  {}

  // ----- Executions and delay -----

  function RetryView(env: nat -> Conditions): nat -> Retry.Attempt {
    (k: nat) => match env(k).work
         case Applies(_) => Succeeds
         case Breaks(c, _) => Fails(c, env(k).draw)
  }

  /** The lane retries exactly as the engine does, so its bounds carry over. */
  lemma {:induction false} FollowsEngine(lane: Lane, s: State, attempt: nat, env: nat -> Conditions, limit: Option<nat>)
    requires attempt >= 1
    ensures var f := Final(lane, s, attempt, env, limit);
            && f.executions == s.executions + Executions(RetryView(env), attempt, limit)
            && f.waited == s.waited + Waited(RetryView(env), attempt, limit)
    decreases 10 - attempt
  {
    var (t, d) := Execute(lane, s, attempt, env(attempt), limit);
    if d == Requeue {
      FollowsEngine(lane, t, attempt + 1, env, limit);
    }
  }

  lemma LifeBounded(lane: Lane, env: nat -> Conditions, limit: Option<nat>)
    requires forall k: nat :: Drawn(RetryView(env)(k), k)
    ensures var f := Final(lane, START, 1, env, limit);
            && 1 <= f.executions <= 10
            && (limit.Some? ==> f.executions <= limit.value + 1)
            && 0.0 <= f.waited <= 1150.0
            && f.job in {Started, Success, Failure}
  {
    FollowsEngine(lane, START, 1, env, limit);
    ExecutionsBounded(RetryView(env), 1, limit);
    WaitedBounded(RetryView(env), limit);
    EndsByLast(lane, START, 1, env, limit);
  }

  // ----- Where an event ends up, whatever the stores do -----

  function Places(s: State): nat {
    (if s.applied then 1 else 0) + s.deadLettered + s.parked
  }

  /** The work was done but its attachment could not be queued. */
  predicate EnqueueBreaks(lane: Lane, x: Conditions) {
    lane == ProcessInbound && x.work == Applies(true) && x.enqueueFails
  }

  /** The failing attempt leaves an entry in the lane's own dead-letter store. */
  predicate DeadLetters(n: nat, x: Conditions) {
    x.work.Breaks? && !ShouldRetry(x.work.c, n) && x.deadLetter != FailsBefore
  }

  /** The last attempt raises: it could not queue, could not dead-letter, or was not retried although it should be. */
  predicate Raises(lane: Lane, n: nat, x: Conditions) {
    EnqueueBreaks(lane, x) || (x.work.Breaks? && (ShouldRetry(x.work.c, n) || x.deadLetter != Stores))
  }

  predicate HookParks(x: Conditions) {
    x.hook == Parks || x.hook == ParkFails(true)
  }

  /** The job is a success when the last attempt returns, else a failure, unless recording that fails. */
  function JobAfter(lane: Lane, n: nat, x: Conditions): Job {
    if !Raises(lane, n, x) then Success else if x.hook == RecordFails then Started else Failure
  }

  /** Some attempt did its work, whether or not it then failed. */
  ghost predicate Committed(env: nat -> Conditions, from: nat, to: nat) {
    exists k: nat :: from <= k <= to && (env(k).work.Applies? || env(k).work.committed)
  }

  lemma {:induction false} EndsByLast(lane: Lane, s: State, attempt: nat, env: nat -> Conditions, limit: Option<nat>)
    requires attempt >= 1
    ensures var n := Last(env, attempt, limit);
            && attempt <= n
            && (attempt <= 10 ==> n <= 10)
            && Execute(lane, s, n, env(n), limit).1 != Requeue
            && Final(lane, s, attempt, env, limit).job in {Started, Success, Failure}
    decreases 10 - attempt
  {
    var (t, d) := Execute(lane, s, attempt, env(attempt), limit);
    if d == Requeue {
      EndsByLast(lane, t, attempt + 1, env, limit);
    }
  }

  /**
    The full account, for every environment: what was applied, what is in the lane's dead-letter
    store and what is parked. Only the last attempt can dead-letter or park, and each at most once.
  */
  lemma {:induction false} FinalAccount(lane: Lane, s: State, attempt: nat, env: nat -> Conditions, limit: Option<nat>)
    requires attempt >= 1 && s.deadLettered == 0 && s.parked == 0
    ensures var n := Last(env, attempt, limit);
            var f := Final(lane, s, attempt, env, limit);
            && attempt <= n
            && (f.applied <==> s.applied || Committed(env, attempt, n))
            && f.deadLettered == (if DeadLetters(n, env(n)) then 1 else 0)
            && f.parked == (if HookParks(env(n)) && Raises(lane, n, env(n)) then 1 else 0)
            && f.executions == s.executions + n - attempt + 1
            && f.job == JobAfter(lane, n, env(n))
    decreases 10 - attempt
  {
    var (t, d) := Execute(lane, s, attempt, env(attempt), limit);
    var n := Last(env, attempt, limit);
    if d == Requeue {
      FinalAccount(lane, t, attempt + 1, env, limit);
      CommittedFrom(env, attempt, n);
    } else {
      assert n == attempt;
      assert Committed(env, attempt, n) <==> env(attempt).work.Applies? || env(attempt).work.committed;
    }
  }

  lemma CommittedFrom(env: nat -> Conditions, from: nat, to: nat)
    requires from < to
    ensures Committed(env, from, to) <==>
            env(from).work.Applies? || env(from).work.committed || Committed(env, from + 1, to)
  {
    if Committed(env, from, to) && !(env(from).work.Applies? || env(from).work.committed) {
      var k: nat :| from <= k <= to && (env(k).work.Applies? || env(k).work.committed);
      assert k != from;
    }
  }

  /** The last attempt leaves nothing behind: its error reaches a failure hook that does not park. */
  predicate Dropped(n: nat, x: Conditions) {
    && x.work.Breaks? && !x.work.committed
    && (ShouldRetry(x.work.c, n) || x.deadLetter == FailsBefore)
    && !HookParks(x)
  }

  /**
    With stores that may fail before or after taking effect, an event is in no place at all
    exactly when no attempt was committed and the last error met a failure hook that did not park.
  */
  lemma LostOnlyByHook(lane: Lane, env: nat -> Conditions, limit: Option<nat>)
    ensures var n := Last(env, 1, limit);
            Places(Final(lane, START, 1, env, limit)) == 0 <==> !Committed(env, 1, n) && Dropped(n, env(n))
  {
    FinalAccount(lane, START, 1, env, limit);
  }

  /**
    An event is in both failure stores exactly when the dead-letter store took it, failed to say so,
    and the hook then parked it.
  */
  predicate StoredTwice(n: nat, x: Conditions) {
    x.work.Breaks? && !ShouldRetry(x.work.c, n) && x.deadLetter == FailsAfter && HookParks(x)
  }

  lemma BothStores(lane: Lane, env: nat -> Conditions, limit: Option<nat>)
    ensures var n := Last(env, 1, limit);
            var f := Final(lane, START, 1, env, limit);
            && (f.deadLettered > 0 && f.parked > 0 <==> StoredTwice(n, env(n)))
            && f.deadLettered <= 1 && f.parked <= 1
  {
    FinalAccount(lane, START, 1, env, limit);
  }

  /**
    An event is in more than one place exactly when it was stored twice, or its work was committed
    and the last attempt nevertheless dead-lettered it or raised to a hook that parks.
  */
  lemma TwoPlaces(lane: Lane, env: nat -> Conditions, limit: Option<nat>)
    ensures var n := Last(env, 1, limit);
            var x := env(n);
            Places(Final(lane, START, 1, env, limit)) >= 2 <==>
            || StoredTwice(n, x)
            || (Committed(env, 1, n) && (DeadLetters(n, x) || (HookParks(x) && Raises(lane, n, x))))
  {
    FinalAccount(lane, START, 1, env, limit);
  }

  /** An event is in exactly one place, in every run, exactly when neither of the two happened. */
  lemma ExactlyOnePlace(lane: Lane, env: nat -> Conditions, limit: Option<nat>)
    ensures var n := Last(env, 1, limit);
            var x := env(n);
            Places(Final(lane, START, 1, env, limit)) == 1 <==>
            if Committed(env, 1, n) then !DeadLetters(n, x) && !(HookParks(x) && Raises(lane, n, x))
            else !StoredTwice(n, x) && !Dropped(n, x)
  {
    FinalAccount(lane, START, 1, env, limit);
  }

  // ----- Which failures are retried -----

  lemma {:induction false} LastAfterFailures(env: nat -> Conditions, attempt: nat, n: nat)
    requires 1 <= attempt <= n
    requires forall i: nat :: attempt <= i < n ==> env(i).work.Breaks? && ShouldRetry(env(i).work.c, i)
    requires env(n).work.Breaks? ==> !ShouldRetry(env(n).work.c, n)
    ensures Last(env, attempt, None) == n
    decreases n - attempt
  {
    if attempt < n {
      assert env(attempt).work.Breaks? && ShouldRetry(env(attempt).work.c, attempt);
      LastAfterFailures(env, attempt + 1, n);
    }
  }

  /** How often a class may fail before the attempt that is not retried. */
  function Retries(c: FailureClass): nat {
    match c
    case Throttle => 9
    case Transient => 4
    case TransientProc => 4
    case TransientMeta => 3
    case TransientMedia => 2
    case _ => 0
  }

  lemma RetriedClass(c: FailureClass, n: nat)
    requires n >= 1
    ensures ShouldRetry(c, n) <==> n <= Retries(c)
  {
    RetriesExact(n);
  }

  /** Failures within each class's number of retries are made good by the next attempt that applies. */
  lemma FailuresThenApplied(lane: Lane, env: nat -> Conditions, k: nat)
    requires forall i: nat :: 1 <= i <= k ==> env(i).work.Breaks? && i <= Retries(env(i).work.c)
    requires env(k + 1).work == Applies(false)
    ensures var f := Final(lane, START, 1, env, None);
            f.applied && f.executions == k + 1 && f.deadLettered == 0 && f.parked == 0 && f.job == Success
  {
    forall i: nat | 1 <= i <= k ensures ShouldRetry(env(i).work.c, i) {
      RetriedClass(env(i).work.c, i);
    }
    LastAfterFailures(env, 1, k + 1);
    FinalAccount(lane, START, 1, env, None);
    assert Committed(env, 1, k + 1);
  }

  /** A class that keeps failing is dead-lettered once, after as many executions as it has retries and one. */
  lemma FailingIsDeadLettered(lane: Lane, env: nat -> Conditions, c: FailureClass)
    requires forall i: nat :: 1 <= i <= Retries(c) + 1 ==> env(i).work == Breaks(c, false)
    requires env(Retries(c) + 1).deadLetter == Stores
    ensures var f := Final(lane, START, 1, env, None);
            !f.applied && f.executions == Retries(c) + 1 && f.deadLettered == 1 && f.parked == 0 && f.job == Success
  {
    forall i: nat | 1 <= i <= Retries(c) + 1 ensures ShouldRetry(env(i).work.c, i) <==> i <= Retries(c) {
      RetriedClass(c, i);
    }
    LastAfterFailures(env, 1, Retries(c) + 1);
    FinalAccount(lane, START, 1, env, None);
  }

  // ----- Stores that take effect exactly when they say so -----

  /** Every store call takes effect exactly when it succeeds, and the failure hook works. */
  ghost predicate Clean(x: Conditions) {
    && (x.work.Breaks? ==> !x.work.committed)
    && x.deadLetter != FailsAfter
    && x.hook == Parks
  }

  /**
    In a run with clean effects no work is committed by an attempt that fails, nothing is stored
    twice and nothing is lost: the event ends in exactly one place, except for one case, an inbound
    message whose attachment could not be queued, which is applied and parked as well.
  */
  lemma OnePlace(lane: Lane, env: nat -> Conditions, limit: Option<nat>)
    requires forall k: nat :: Clean(env(k))
    ensures var n := Last(env, 1, limit);
            var f := Final(lane, START, 1, env, limit);
            && Places(f) >= 1
            && (Places(f) == 1 <==> !EnqueueBreaks(lane, env(n)))
            && f.deadLettered + f.parked <= 1
            && (f.applied <==> env(n).work.Applies?)
  {
    CleanCommit(env, 1, limit);
    FinalAccount(lane, START, 1, env, limit);
    assert Clean(env(Last(env, 1, limit)));
  }

  /** In a clean run an attempt that is retried has committed nothing. */
  lemma {:induction false} CleanCommit(env: nat -> Conditions, attempt: nat, limit: Option<nat>)
    requires forall k: nat :: Clean(env(k))
    ensures var n := Last(env, attempt, limit);
            attempt <= n && (Committed(env, attempt, n) <==> env(n).work.Applies?)
    decreases 10 - attempt
  {
    assert Clean(env(attempt));
    var n := Last(env, attempt, limit);
    if n != attempt {
      CleanCommit(env, attempt + 1, limit);
      CommittedFrom(env, attempt, n);
    } else {
      assert Committed(env, n, n) <==> env(n).work.Applies? || env(n).work.committed;
    }
  }

  /** The parked entry is there for a reason: dead-lettering failed, or the attachment was not queued. */
  ghost predicate ParkedOnlyIfNeeded(lane: Lane, env: nat -> Conditions, limit: Option<nat>) {
    Final(lane, START, 1, env, limit).parked > 0 ==>
      var x := env(Last(env, 1, limit));
      EnqueueBreaks(lane, x) || (x.work.Breaks? && x.deadLetter != Stores)
  }

  function Throttled(): nat -> Conditions {
    (k: nat) => Conditions(Breaks(Throttle, false), Stores, false, Parks, 0.0)
  }

  lemma {:induction false} ThrottledLast(limit: nat, attempt: nat)
    requires limit <= 8 && 1 <= attempt <= limit + 1
    ensures Last(Throttled(), attempt, Some(limit)) == limit + 1
    decreases 10 - attempt
  {
    if attempt <= limit {
      ThrottledLast(limit, attempt + 1);
    }
  }

  /**
    Retryable work is never parked behind the lane's own dead-letter store, in every run whatever,
    exactly when the broker's retry limit does not undercut the longest class: none, or at least 9.
    With the limit 5 that the two lanes register, a sixth throttled attempt is parked.
  */
  lemma ParkedOnlyWhenDeadLetterFails(lane: Lane, limit: Option<nat>)
    ensures (limit.None? || limit.value >= 9) <==>
            forall env: nat -> Conditions :: ParkedOnlyIfNeeded(lane, env, limit)
  {
    if limit.None? || limit.value >= 9 {
      forall env: nat -> Conditions ensures ParkedOnlyIfNeeded(lane, env, limit) {
        FinalAccount(lane, START, 1, env, limit);
        LastIsNotRequeued(env, 1, limit);
      }
    } else {
      ThrottledLast(limit.value, 1);
      FinalAccount(lane, START, 1, Throttled(), limit);
      assert !ParkedOnlyIfNeeded(lane, Throttled(), limit);
    }
  }

  /** With the registered limit of 5, six throttled attempts end in the generic dead-letter queue. */
  lemma SixthThrottleIsParked(lane: Lane)
    ensures var f := Final(lane, START, 1, Throttled(), Some(5));
            f.parked == 1 && f.deadLettered == 0 && !f.applied && f.executions == 6
  {
    ThrottledLast(5, 1);
    FinalAccount(lane, START, 1, Throttled(), Some(5));
    assert forall k: nat :: Clean(Throttled()(k));
    CleanCommit(Throttled(), 1, Some(5));
    FollowsEngine(lane, START, 1, Throttled(), Some(5));
    ThrottledExecutions(1);
  }

  lemma {:induction false} ThrottledExecutions(attempt: nat)
    requires 1 <= attempt <= 6
    ensures Executions(RetryView(Throttled()), attempt, Some(5)) == 7 - attempt
    decreases 6 - attempt
  {
    if attempt < 6 {
      ThrottledExecutions(attempt + 1);
    }
  }

  /** An inbound message that is applied while its attachment cannot be queued is parked as well. */
  lemma AppliedAndParked()
    ensures var x := Conditions(Applies(true), Stores, true, Parks, 0.0);
            var f := Final(ProcessInbound, START, 1, (_: nat) => x, None);
            f.applied && f.parked == 1 && Places(f) == 2
  {}

  lemma {:induction false} LastIsNotRequeued(env: nat -> Conditions, attempt: nat, limit: Option<nat>)
    requires 1 <= attempt <= 10
    ensures var n := Last(env, attempt, limit);
            n <= 10 && (env(n).work.Breaks? ==> !Requeued(env(n).work.c, n, limit))
    decreases 10 - attempt
  {
    if env(attempt).work.Breaks? && Requeued(env(attempt).work.c, attempt, limit) {
      LastIsNotRequeued(env, attempt + 1, limit);
    }
  }
}
