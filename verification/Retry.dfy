/** The smart-retry engine: failure classes, attempt caps and capped exponential backoff. */
module Retry {
  import opened Wrappers

  datatype FailureClass =
    | Throttle | Transient | TransientMeta | TransientMedia | TransientProc
    | Terminal | TerminalData | TerminalPolicy | TerminalConfig | Unknown

  datatype Policy = Policy(maxAttempts: nat, baseSeconds: real, capSeconds: real)

  function PolicyFor(c: FailureClass): Policy {
    match c
    case Throttle => Policy(10, 2.0, 300.0)
    case Transient => Policy(5, 1.0, 120.0)
    case TransientMeta => Policy(4, 5.0, 300.0)
    case TransientMedia => Policy(3, 2.0, 60.0)
    case TransientProc => Policy(5, 1.0, 120.0)
    case Terminal => Policy(0, 0.0, 0.0)
    case TerminalData => Policy(0, 0.0, 0.0)
    case TerminalPolicy => Policy(0, 0.0, 0.0)
    case TerminalConfig => Policy(0, 0.0, 0.0)
    case Unknown => Policy(0, 0.0, 0.0)
  }

  /** `attempt` counts the attempts already made, this one included. */
  predicate ShouldRetry(c: FailureClass, attempt: int) {
    attempt < PolicyFor(c).maxAttempts
  }

  function Pow2(n: nat): nat {
    if n == 0 then 1 else 2 * Pow2(n - 1)
  }

  function Lesser(a: real, b: real): real {
    if a <= b then a else b
  }

  /** The longest delay that may be drawn after an attempt. */
  function Ceiling(c: FailureClass, attempt: int): real {
    var policy := PolicyFor(c);
    if policy.maxAttempts == 0 then 0.0
    else Lesser(policy.capSeconds, policy.baseSeconds * Pow2(if attempt < 0 then 0 else attempt) as real)
  }

  /** When another attempt follows attempt number n, class by class. */
  lemma RetriesExact(n: nat)
    requires n >= 1
    ensures ShouldRetry(Throttle, n) <==> n < 10
    ensures ShouldRetry(Transient, n) <==> n < 5
    ensures ShouldRetry(TransientProc, n) <==> n < 5
    ensures ShouldRetry(TransientMeta, n) <==> n < 4
    ensures ShouldRetry(TransientMedia, n) <==> n < 3
    ensures forall c :: c in {Terminal, TerminalData, TerminalPolicy, TerminalConfig, Unknown} ==> !ShouldRetry(c, n)
  {}

  /** The longest delay after each attempt that is retried, in seconds. */
  lemma CeilingsExact()
    ensures Delays(Throttle, [4.0, 8.0, 16.0, 32.0, 64.0, 128.0, 256.0, 300.0, 300.0])
    ensures Delays(Transient, [2.0, 4.0, 8.0, 16.0])
    ensures Delays(TransientProc, [2.0, 4.0, 8.0, 16.0])
    ensures Delays(TransientMeta, [10.0, 20.0, 40.0])
    ensures Delays(TransientMedia, [4.0, 8.0])
    ensures forall c, n :: c in {Terminal, TerminalData, TerminalPolicy, TerminalConfig, Unknown} ==>
              Ceiling(c, n) == 0.0
  {
    PowersOfTwo();
  }

  ghost predicate Delays(c: FailureClass, seconds: seq<real>) {
    forall n :: 1 <= n <= |seconds| ==> Ceiling(c, n) == seconds[n - 1]
  }

  /** Every ceiling is the base doubled per attempt up to the cap, whatever the attempt. */
  lemma CeilingDoubles(c: FailureClass, n: nat)
    ensures var (base, cap) := match c
              case Throttle => (2.0, 300.0)
              case Transient => (1.0, 120.0)
              case TransientProc => (1.0, 120.0)
              case TransientMeta => (5.0, 300.0)
              case TransientMedia => (2.0, 60.0)
              case _ => (0.0, 0.0);
            && (forall k: int :: k <= 0 ==> Ceiling(c, k) == base)
            && Ceiling(c, n + 1) == if 2.0 * Ceiling(c, n) <= cap then 2.0 * Ceiling(c, n) else cap
  {
    Pow2Positive(n);
    assert Pow2(n + 1) as real == 2.0 * Pow2(n) as real;
  }

  lemma {:induction false} Pow2Positive(n: nat)
    ensures Pow2(n) >= 1
  {
    if n > 0 {
      Pow2Positive(n - 1);
    }
  }


  /** For one class the ceilings grow with the attempt, start at the base and never exceed the cap. */
  lemma {:induction false} CeilingMonotone(c: FailureClass, a: nat, b: nat)
    requires a <= b
    ensures 0.0 <= Ceiling(c, a) <= Ceiling(c, b) <= PolicyFor(c).capSeconds
    decreases b - a
  {
    if a < b {
      CeilingMonotone(c, a + 1, b);
      assert Pow2(a + 1) as real == 2.0 * Pow2(a) as real;
    }
  }

  // ----- Classification -----

  /** An exception as the classifiers see it. */
  datatype Exn = Exn(kind: string, detail: string, isTimeoutOrConnection: bool)

  type Classifier = Exn -> Option<FailureClass>

  function ClassifyBy(maps: seq<(string, Classifier)>, e: Exn): FailureClass {
    if maps == [] then if e.isTimeoutOrConnection then Transient else Unknown
    else match maps[0].1(e)
      case Some(c) => c
      case None => ClassifyBy(maps[1..], e)
  }

  /** The first registered map with an opinion decides, and only when none has one the built-in rule. */
  lemma {:induction false} FirstOpinionDecides(maps: seq<(string, Classifier)>, e: Exn, i: nat)
    requires i <= |maps| && forall j :: 0 <= j < i ==> maps[j].1(e).None?
    ensures i < |maps| && maps[i].1(e).Some? ==> ClassifyBy(maps, e) == maps[i].1(e).value
    ensures i == |maps| ==> ClassifyBy(maps, e) == if e.isTimeoutOrConnection then Transient else Unknown
  {
    if i > 0 {
      assert maps[0].1(e).None?;
      FirstOpinionDecides(maps[1..], e, i - 1);
    }
  }

  class ErrorMaps {
    var maps: seq<(string, Classifier)>

    constructor ()
      ensures maps == []
    {
      maps := [];
    }

    /** Registering a name again replaces its map where it stands; a new name goes last. */
    method Register(name: string, classifier: Classifier)
      modifies this
      ensures forall i :: 0 <= i < |old(maps)| ==>
                i < |maps| && maps[i] == if FirstAt(old(maps), name, i) then (name, classifier) else old(maps)[i]
      ensures if exists i :: 0 <= i < |old(maps)| && old(maps)[i].0 == name then |maps| == |old(maps)|
              else maps == old(maps) + [(name, classifier)]
    {
      for i := 0 to |maps|
        invariant maps == old(maps)
        invariant forall j :: 0 <= j < i ==> maps[j].0 != name
      {
        if maps[i].0 == name {
          maps := maps[i := (name, classifier)];
          return;
        }
      }
      maps := maps + [(name, classifier)];
    }

    method Clear()
      modifies this
      ensures maps == []
    {
      maps := [];
    }

    method Classify(e: Exn) returns (c: FailureClass)
      ensures c == ClassifyBy(maps, e)
    {
      for i := 0 to |maps|
        invariant ClassifyBy(maps, e) == ClassifyBy(maps[i..], e)
      {
        var result := maps[i].1(e);
        if result.Some? {
          return result.value;
        }
      }
      return if e.isTimeoutOrConnection then Transient else Unknown;
    }
  }

  predicate FirstAt(maps: seq<(string, Classifier)>, name: string, i: nat)
    requires i < |maps|
  {
    maps[i].0 == name && forall j :: 0 <= j < i ==> maps[j].0 != name
  }

  // ----- A task under smart retry -----

  /** What happens at an attempt: it succeeds, or fails with a class; `draw` is the jittered delay. */
  datatype Attempt = Succeeds | Fails(c: FailureClass, draw: real)

  predicate Drawn(a: Attempt, attempt: nat) {
    a.Fails? ==> 0.0 <= a.draw <= Ceiling(a.c, attempt)
  }

  /**
    Whether another attempt follows. The broker's own retry limit is a parameter: None when it
    sets no limit, Some(n) when it gives up once the attempt number exceeds n.
  */
  predicate Requeued(c: FailureClass, attempt: nat, limit: Option<nat>) {
    ShouldRetry(c, attempt) && (limit.None? || attempt <= limit.value)
  }

  /** How many times the task runs from attempt number `attempt` on. */
  function Executions(env: nat -> Attempt, attempt: nat, limit: Option<nat>): nat
    decreases 10 - attempt
  {
    if env(attempt).Fails? && Requeued(env(attempt).c, attempt, limit) then 1 + Executions(env, attempt + 1, limit)
    else 1
  }

  /** How long it waits between its attempts, all told. */
  function Waited(env: nat -> Attempt, attempt: nat, limit: Option<nat>): real
    decreases 10 - attempt
  {
    if env(attempt).Fails? && Requeued(env(attempt).c, attempt, limit)
    then env(attempt).draw + Waited(env, attempt + 1, limit)
    else 0.0
  }

  /** Whatever classes the failures have, in any order, a task runs at most ten times. */
  lemma {:induction false} ExecutionsBounded(env: nat -> Attempt, attempt: nat, limit: Option<nat>)
    requires 1 <= attempt <= 10
    ensures Executions(env, attempt, limit) <= 11 - attempt
    ensures limit.Some? && attempt <= limit.value + 1 ==> Executions(env, attempt, limit) <= limit.value + 2 - attempt
    decreases 10 - attempt
  {
    if env(attempt).Fails? && Requeued(env(attempt).c, attempt, limit) {
      ExecutionsBounded(env, attempt + 1, limit);
    }
  }

  /** The longest delay any retryable class allows after each attempt. */
  function Longest(attempt: nat): real {
    match attempt
    case 1 => 10.0
    case 2 => 20.0
    case 3 => 40.0
    case 4 => 32.0
    case 5 => 64.0
    case 6 => 128.0
    case 7 => 256.0
    case 8 => 300.0
    case 9 => 300.0
    case _ => 0.0
  }

  function LongestFrom(attempt: nat): real
    decreases 10 - attempt
  {
    if attempt >= 10 then 0.0 else Longest(attempt) + LongestFrom(attempt + 1)
  }

  lemma PowersOfTwo()
    ensures Pow2(1) == 2 && Pow2(2) == 4 && Pow2(3) == 8 && Pow2(4) == 16 && Pow2(5) == 32
    ensures Pow2(6) == 64 && Pow2(7) == 128 && Pow2(8) == 256 && Pow2(9) == 512
  {
    assert Pow2(3) == 8;
    assert Pow2(6) == 64;
  }

  lemma CeilingWithinLongest(c: FailureClass, attempt: nat)
    requires attempt >= 1 && ShouldRetry(c, attempt)
    ensures Ceiling(c, attempt) <= Longest(attempt)
  {
    PowersOfTwo();
  }

  lemma LongestTotal()
    ensures LongestFrom(1) == 1150.0
  {
    assert LongestFrom(7) == 856.0;
    assert LongestFrom(4) == 1080.0;
  }

  lemma {:induction false} WaitedWithin(env: nat -> Attempt, attempt: nat, limit: Option<nat>)
    requires attempt >= 1 && forall k: nat :: Drawn(env(k), k)
    ensures 0.0 <= Waited(env, attempt, limit) <= LongestFrom(attempt)
    decreases 10 - attempt
  {
    if env(attempt).Fails? && Requeued(env(attempt).c, attempt, limit) {
      assert Drawn(env(attempt), attempt);
      CeilingWithinLongest(env(attempt).c, attempt);
      WaitedWithin(env, attempt + 1, limit);
    } else {
      LongestNonNegative(attempt);
    }
  }

  lemma {:induction false} LongestNonNegative(attempt: nat)
    ensures LongestFrom(attempt) >= 0.0
    decreases 10 - attempt
  {
    if attempt < 10 {
      LongestNonNegative(attempt + 1);
    }
  }

  /** Whatever classes alternate, the delays drawn sum to at most 1150 seconds. */
  lemma WaitedBounded(env: nat -> Attempt, limit: Option<nat>)
    requires forall k: nat :: Drawn(env(k), k)
    ensures 0.0 <= Waited(env, 1, limit) <= 1150.0
  {
    WaitedWithin(env, 1, limit);
    LongestTotal();
  }

  /** Three channel errors, then throttling, each time with the longest delay. */
  function Slowest(): nat -> Attempt {
    k => Fails(if k <= 3 then TransientMeta else Throttle, Ceiling(if k <= 3 then TransientMeta else Throttle, k))
  }

  lemma {:induction false} SlowestFrom(attempt: nat)
    requires 1 <= attempt <= 10
    ensures Executions(Slowest(), attempt, None) == 11 - attempt
    ensures Waited(Slowest(), attempt, None) == LongestFrom(attempt)
    decreases 10 - attempt
  {
    PowersOfTwo();
    if attempt < 10 {
      SlowestFrom(attempt + 1);
      assert Ceiling(if attempt <= 3 then TransientMeta else Throttle, attempt) == Longest(attempt);
    }
  }

  /** Both bounds are attained: ten executions, and 1150 seconds of delay. */
  lemma BoundsAttained()
    ensures forall k: nat :: Drawn(Slowest()(k), k)
    ensures Executions(Slowest(), 1, None) == 10 && Waited(Slowest(), 1, None) == 1150.0
  {
    SlowestFrom(1);
    LongestTotal();
    forall k: nat ensures Drawn(Slowest()(k), k) {
      CeilingMonotone(if k <= 3 then TransientMeta else Throttle, k, k);
    }
  }
}
