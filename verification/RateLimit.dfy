/** The fixed-window limiter: a counter per identifier and window, kept in a store with expiry. */
module RateLimit {
  import opened Wrappers

  /** The counter of one identifier in one window. */
  datatype Key = Key(identifier: string, windowStart: int)

  datatype Counter = Counter(count: nat, expiresAt: Option<real>)

  datatype Request = Request(identifier: string, now: real)

  function WindowOf(now: real, window: int): int
    requires window > 0
  {
    (now / window as real).Floor
  }

  predicate Live(c: Counter, now: real) {
    c.expiresAt.None? || now < c.expiresAt.value
  }

  type Counters = map<Key, Counter>

  /** The count the store would answer with before the request. */
  function CountAt(counters: Counters, key: Key, now: real): nat {
    if key in counters && Live(counters[key], now) then counters[key].count else 0
  }

  /** INCR, and EXPIRE on the first increment. */
  function Bumped(counters: Counters, key: Key, window: int, now: real): Counters {
    var count := CountAt(counters, key, now) + 1;
    counters[key := Counter(count, if count == 1 then Some(now + window as real) else counters[key].expiresAt)]
  }

  class Limiter {
    var counters: Counters

    constructor ()
      ensures counters == map[]
    {
      counters := map[];
    }

    method Incr(key: Key, now: real) returns (count: nat)
      modifies this
      ensures count == CountAt(old(counters), key, now) + 1
      ensures var expiresAt := if count == 1 then None else old(counters)[key].expiresAt;
              counters == old(counters)[key := Counter(count, expiresAt)]
    {
      if key in counters && Live(counters[key], now) && counters[key].count > 0 {
        count := counters[key].count + 1;
        counters := counters[key := Counter(count, counters[key].expiresAt)];
      } else {
        count := 1;
        counters := counters[key := Counter(1, None)];
      }
    }

    method Expire(key: Key, ttl: int, now: real)
      requires key in counters
      modifies this
      ensures counters == old(counters)[key := old(counters)[key].(expiresAt := Some(now + ttl as real))]
    {
      counters := counters[key := counters[key].(expiresAt := Some(now + ttl as real))];
    }

    method IncrWindow(key: Key, window: int, now: real) returns (count: nat)
      modifies this
      ensures count == CountAt(old(counters), key, now) + 1
      ensures counters == Bumped(old(counters), key, window, now)
      ensures key in counters && counters[key].count == count
      ensures counters[key].expiresAt == if count == 1 then Some(now + window as real) else old(counters)[key].expiresAt
    {
      count := Incr(key, now);
      if count == 1 {
        Expire(key, window, now);
      }
    }

    /** Admits the request, or refuses it with 429. */
    method Enforce(identifier: string, limit: nat, window: int, now: real) returns (admitted: bool)
      requires window > 0
      modifies this
      ensures var key := Key(identifier, WindowOf(now, window));
              && counters == Bumped(old(counters), key, window, now)
              && admitted == (CountAt(old(counters), key, now) < limit)
    {
      var windowStart := (now / window as real).Floor;
      var count := IncrWindow(Key(identifier, windowStart), window, now);
      admitted := count <= limit;
    }

    /** A whole sequence of requests, one after the other. */
    method EnforceAll(requests: seq<Request>, limit: nat, window: int) returns (admitted: seq<bool>)
      requires window > 0 && counters == map[]
      modifies this
      ensures counters == Run(requests, window)
      ensures |admitted| == |requests|
      ensures forall i :: 0 <= i < |requests| ==> admitted[i] == Admitted(requests, i, limit, window)
    {
      admitted := [];
      for i := 0 to |requests|
        invariant counters == Run(requests[..i], window) && |admitted| == i
        invariant forall j :: 0 <= j < i ==> admitted[j] == Admitted(requests, j, limit, window)
      {
        var ok := Enforce(requests[i].identifier, limit, window, requests[i].now);
        assert requests[..i + 1][..i] == requests[..i];
        admitted := admitted + [ok];
      }
      assert requests[..|requests|] == requests;
    }
  }

  // ----- Runs -----

  function Run(requests: seq<Request>, window: int): Counters
    requires window > 0
  {
    if requests == [] then map[]
    else
      var n := |requests| - 1;
      var r := requests[n];
      Bumped(Run(requests[..n], window), Key(r.identifier, WindowOf(r.now, window)), window, r.now)
  }

  predicate Admitted(requests: seq<Request>, i: nat, limit: nat, window: int)
    requires window > 0 && i < |requests|
  {
    var r := requests[i];
    CountAt(Run(requests[..i], window), Key(r.identifier, WindowOf(r.now, window)), r.now) < limit
  }

  predicate SameCounter(r: Request, identifier: string, w: int, window: int)
    requires window > 0
  {
    r.identifier == identifier && WindowOf(r.now, window) == w
  }

  /** Requests of an identifier in a window. */
  function Asked(requests: seq<Request>, identifier: string, w: int, window: int): nat
    requires window > 0
  {
    if requests == [] then 0
    else
      var n := |requests| - 1;
      Asked(requests[..n], identifier, w, window) + (if SameCounter(requests[n], identifier, w, window) then 1 else 0)
  }

  /** The moment at which a window starts. */
  function Edge(w: int, window: int): real {
    w as real * window as real
  }

  lemma Scaled(x: real, y: real, d: real)
    requires d > 0.0
    ensures x < y ==> x * d < y * d
    ensures x <= y ==> x * d <= y * d
    ensures (x + y) * d == x * d + y * d
  {}

  lemma WindowBounds(now: real, window: int)
    requires window > 0
    ensures var w := WindowOf(now, window); w as real * window as real <= now < (w + 1) as real * window as real
    ensures var w := WindowOf(now, window); Edge(w, window) <= now < Edge(w + 1, window)
  {
    var q, f, d := now / window as real, WindowOf(now, window), window as real;
    assert q * d == now;
    assert f as real <= q < f as real + 1.0 == (f + 1) as real;
    Scaled(f as real, q, d);
    Scaled(q, (f + 1) as real, d);
    assert q * d < (f + 1) as real * d;
    assert now < Edge(f + 1, window);
  }

  lemma EdgesApart(w: int, v: int, window: int)
    requires window > 0
    ensures Edge(w + 1, window) == Edge(w, window) + window as real
    ensures w <= v ==> Edge(w, window) <= Edge(v, window)
  {
    Scaled(w as real, 1.0, window as real);
    Scaled(w as real, v as real, window as real);
    assert (w + 1) as real == w as real + 1.0;
  }

  lemma WindowMonotone(a: real, b: real, window: int)
    requires window > 0 && a <= b
    ensures WindowOf(a, window) <= WindowOf(b, window)
  {
    assert a / window as real <= b / window as real;
  }

  /** Every counter expires, in the window that follows its own. */
  ghost predicate OutlivesWindow(counters: Counters, window: int)
    requires window > 0
  {
    forall key :: key in counters ==>
      && counters[key].expiresAt.Some?
      && Edge(key.windowStart + 1, window) <= counters[key].expiresAt.value < Edge(key.windowStart + 2, window)
  }

  /** After any requests, the live counter of a window holds the number of requests made in it. */
  ghost predicate Faithful(requests: seq<Request>, counters: Counters, window: int)
    requires window > 0
  {
    forall key: Key, now: real :: WindowOf(now, window) == key.windowStart
      ==> CountAt(counters, key, now) == Asked(requests, key.identifier, key.windowStart, window)
  }

  lemma ExpiryKept(counters: Counters, key: Key, window: int, now: real)
    requires window > 0 && OutlivesWindow(counters, window) && key.windowStart == WindowOf(now, window)
    ensures OutlivesWindow(Bumped(counters, key, window, now), window)
  {
    WindowBounds(now, window);
    EdgesApart(key.windowStart, key.windowStart, window);
    EdgesApart(key.windowStart + 1, key.windowStart + 1, window);
  }

  lemma LiveInWindow(c: Counter, w: int, now: real, window: int)
    requires window > 0 && WindowOf(now, window) == w
    requires c.expiresAt.Some? && c.expiresAt.value >= Edge(w + 1, window)
    ensures Live(c, now)
  {
    WindowBounds(now, window);
  }

  lemma {:induction false} RunFaithful(requests: seq<Request>, window: int)
    requires window > 0
    ensures OutlivesWindow(Run(requests, window), window)
    ensures Faithful(requests, Run(requests, window), window)
  {
    if requests != [] {
      var n := |requests| - 1;
      var init, r := requests[..n], requests[n];
      var before, after := Run(init, window), Run(requests, window);
      var bumped := Key(r.identifier, WindowOf(r.now, window));
      RunFaithful(init, window);
      ExpiryKept(before, bumped, window, r.now);
      forall key: Key, now: real | WindowOf(now, window) == key.windowStart
        ensures CountAt(after, key, now) == Asked(requests, key.identifier, key.windowStart, window)
      {
        assert CountAt(before, key, now) == Asked(init, key.identifier, key.windowStart, window);
        if key == bumped {
          LiveInWindow(after[key], key.windowStart, now, window);
          assert CountAt(before, key, r.now) == Asked(init, key.identifier, key.windowStart, window);
        }
      }
    }
  }

  /** A request is admitted exactly when fewer than `limit` requests of its identifier came before it in its window. */
  lemma AdmittedExactly(requests: seq<Request>, i: nat, limit: nat, window: int)
    requires window > 0 && i < |requests|
    ensures Admitted(requests, i, limit, window) <==>
            Asked(requests[..i], requests[i].identifier, WindowOf(requests[i].now, window), window) < limit
  {
    RunFaithful(requests[..i], window);
  }

  // ----- How many are admitted -----

  function InWindow(w: int, window: int): real -> bool
    requires window > 0
  {
    now => WindowOf(now, window) == w
  }

  function InInterval(from: real, window: int): real -> bool {
    now => from <= now < from + window as real
  }

  /** Admitted requests of an identifier at the times that `during` accepts. */
  function CountAdmitted(requests: seq<Request>, limit: nat, window: int, identifier: string, during: real -> bool): nat
    requires window > 0
  {
    if requests == [] then 0
    else
      var n := |requests| - 1;
      var r := requests[n];
      CountAdmitted(requests[..n], limit, window, identifier, during)
      + (if r.identifier == identifier && during(r.now) && Admitted(requests, n, limit, window) then 1 else 0)
  }

  /** In each fixed window exactly the first `limit` requests of an identifier are admitted. */
  lemma {:induction false} AdmittedPerWindow(requests: seq<Request>, limit: nat, window: int, identifier: string,
                                             w: int)
    requires window > 0
    ensures var asked := Asked(requests, identifier, w, window);
            CountAdmitted(requests, limit, window, identifier, InWindow(w, window)) ==
            if asked <= limit then asked else limit
  {
    if requests != [] {
      var n := |requests| - 1;
      AdmittedPerWindow(requests[..n], limit, window, identifier, w);
      AdmittedExactly(requests, n, limit, window);
    }
  }

  lemma IntervalSpansTwoWindows(now: real, from: real, window: int)
    requires window > 0 && InInterval(from, window)(now)
    ensures var w := WindowOf(from, window); InWindow(w, window)(now) || InWindow(w + 1, window)(now)
  {
    WindowMonotone(from, now, window);
    WindowBounds(from, window);
    WindowBounds(now, window);
    var w, v := WindowOf(from, window), WindowOf(now, window);
    EdgesApart(w + 1, v, window);
    EdgesApart(w + 2, v, window);
    EdgesApart(w, w, window);
  }

  lemma {:induction false} IntervalWithinWindows(requests: seq<Request>, limit: nat, window: int,
                                                 identifier: string, from: real)
    requires window > 0
    ensures var w := WindowOf(from, window);
            CountAdmitted(requests, limit, window, identifier, InInterval(from, window)) <=
            CountAdmitted(requests, limit, window, identifier, InWindow(w, window))
            + CountAdmitted(requests, limit, window, identifier, InWindow(w + 1, window))
  {
    if requests != [] {
      var n := |requests| - 1;
      IntervalWithinWindows(requests[..n], limit, window, identifier, from);
      if InInterval(from, window)(requests[n].now) {
        IntervalSpansTwoWindows(requests[n].now, from, window);
      }
    }
  }

  /** In any half-open interval as long as a window, at most twice the limit is admitted. */
  lemma AdmittedPerInterval(requests: seq<Request>, limit: nat, window: int, identifier: string, from: real)
    requires window > 0
    ensures CountAdmitted(requests, limit, window, identifier, InInterval(from, window)) <= 2 * limit
  {
    var w := WindowOf(from, window);
    IntervalWithinWindows(requests, limit, window, identifier, from);
    AdmittedPerWindow(requests, limit, window, identifier, w);
    AdmittedPerWindow(requests, limit, window, identifier, w + 1);
  }

  /** The counter a request bumps is set to expire in the window after the request's own, never before that. */
  lemma ExpiryCoversWindow(requests: seq<Request>, window: int, key: Key)
    requires window > 0 && key in Run(requests, window)
    ensures var c := Run(requests, window)[key];
            && c.expiresAt.Some?
            && Edge(key.windowStart + 1, window) <= c.expiresAt.value < Edge(key.windowStart + 2, window)
            && forall now: real :: WindowOf(now, window) == key.windowStart ==> Live(c, now)
  {
    RunFaithful(requests, window);
    var c := Run(requests, window)[key];
    forall now: real | WindowOf(now, window) == key.windowStart ensures Live(c, now) {
      LiveInWindow(c, key.windowStart, now, window);
    }
  }
}
