/**
  The idempotency-key protocol as a transition system: any number of `begin` calls on one key,
  each of which asks the store twice, interleaved with completions, releases, expiry and lost
  store calls.
*/
module Idempotency {
  import opened Wrappers

  datatype Entry = InFlight | Recorded(response: string)

  /** What `begin` answers: go ahead, the stored response, 409, or 503. */
  datatype Answer = Proceed | Replay(response: string) | Conflict | Unavailable

  // ----- One store call -----

  /** SET key marker NX: the new entry, and whether the claim was made. */
  function SetIfAbsent(entry: Option<Entry>): (Option<Entry>, bool) {
    if entry.None? then (Some(InFlight), true) else (entry, false)
  }

  /** What a call that did not make the claim answers when it reads the key. */
  function AnswerFor(entry: Option<Entry>): Answer {
    match entry
    case None => Proceed          // the entry vanished between the two store calls
    case Some(InFlight) => Conflict
    case Some(Recorded(response)) => Replay(response)
  }

  // ----- The system -----

  /** `begin` calls are numbered; a client that retries makes a new call. */
  type Call = nat

  datatype Phase =
    | Waiting                      // the claim was refused, the key is still to be read
    | Answered(answer: Answer)     // Replay, Conflict or Unavailable
    | Working                      // told to proceed
    | Done(response: string)
    | GaveUp

  datatype Event =
    | SetNx(c: Call)
    | SetNxLost(c: Call, applied: bool)
    | Get(c: Call)
    | GetLost(c: Call)
    | Complete(c: Call, response: string)
    | CompleteLost(c: Call, response: string, applied: bool)
    | Release(c: Call)
    | ReleaseLost(c: Call, applied: bool)
    | Expire

  /** `claims` and `blind` count the two ways to be told to proceed; `erasures` counts entries removed. */
  datatype System = System(entry: Option<Entry>, calls: map<Call, Phase>, claims: nat, blind: nat, erasures: nat)

  const EMPTY := System(None, map[], 0, 0, 0)

  predicate In(s: System, c: Call, phase: Phase) {
    c in s.calls && s.calls[c] == phase
  }

  predicate Enabled(s: System, e: Event) {
    match e
    case SetNx(c) => c !in s.calls
    case SetNxLost(c, _) => c !in s.calls
    case Get(c) => In(s, c, Waiting)
    case GetLost(c) => In(s, c, Waiting)
    case Complete(c, _) => In(s, c, Working)
    case CompleteLost(c, _, _) => In(s, c, Working)
    case Release(c) => In(s, c, Working)
    case ReleaseLost(c, _) => In(s, c, Working)
    case Expire => s.entry.Some?
  }

  function Erased(s: System): System {
    if s.entry.None? then s else s.(entry := None, erasures := s.erasures + 1)
  }

  function Apply(s: System, e: Event): System
    requires Enabled(s, e)
  {
    match e
    case SetNx(c) =>
      var (entry, claimed) := SetIfAbsent(s.entry);
      if claimed then s.(entry := entry, calls := s.calls[c := Working], claims := s.claims + 1)
      else s.(calls := s.calls[c := Waiting])
    case SetNxLost(c, applied) =>
      s.(entry := if applied then SetIfAbsent(s.entry).0 else s.entry, calls := s.calls[c := Answered(Unavailable)])
    case Get(c) =>
      var answer := AnswerFor(s.entry);
      if answer == Proceed then s.(calls := s.calls[c := Working], blind := s.blind + 1)
      else s.(calls := s.calls[c := Answered(answer)])
    case GetLost(c) => s.(calls := s.calls[c := Answered(Unavailable)])
    case Complete(c, response) => s.(entry := Some(Recorded(response)), calls := s.calls[c := Done(response)])
    case CompleteLost(c, response, applied) =>
      s.(entry := if applied then Some(Recorded(response)) else s.entry, calls := s.calls[c := Done(response)])
    case Release(c) => Erased(s).(calls := s.calls[c := GaveUp])
    case ReleaseLost(c, applied) => (if applied then Erased(s) else s).(calls := s.calls[c := GaveUp])
    case Expire => Erased(s)
  }

  function Run(trace: seq<Event>): Option<System> {
    if trace == [] then Some(EMPTY)
    else
      var n := |trace| - 1;
      match Run(trace[..n])
      case None => None
      case Some(s) => if Enabled(s, trace[n]) then Some(Apply(s, trace[n])) else None
  }

  /** A possible history, in any interleaving. */
  predicate Possible(trace: seq<Event>) {
    Run(trace).Some?
  }

  lemma {:induction false} PrefixPossible(trace: seq<Event>, k: nat)
    requires Possible(trace) && k <= |trace|
    ensures Possible(trace[..k])
    ensures k < |trace| ==> Enabled(Run(trace[..k]).value, trace[k])
                            && Run(trace[..k + 1]) == Some(Apply(Run(trace[..k]).value, trace[k]))
    decreases |trace|
  {
    if k == |trace| {
      assert trace[..k] == trace;
    } else {
      var n := |trace| - 1;
      if k == n {
        assert trace[..k + 1] == trace;
      } else {
        PrefixPossible(trace[..n], k);
        assert trace[..n][..k] == trace[..k] && trace[..n][..k + 1] == trace[..k + 1];
      }
    }
  }

  // ----- Who was told to proceed -----

  predicate Owner(phase: Phase) {
    phase.Working? || phase.Done? || phase.GaveUp?
  }

  function Owners(s: System): set<Call> {
    set c | c in s.calls && Owner(s.calls[c])
  }

  function Proceeds(s: System): nat {
    s.claims + s.blind
  }

  /** The counters count calls: each call that was told to proceed, once. */
  lemma {:induction false} ProceedsAreOwners(trace: seq<Event>)
    requires Possible(trace)
    ensures |Owners(Run(trace).value)| == Proceeds(Run(trace).value)
  {
    if trace != [] {
      var n := |trace| - 1;
      ProceedsAreOwners(trace[..n]);
      OwnersStep(Run(trace[..n]).value, trace[n]);
    }
  }

  lemma OwnersUpdate(s: System, t: System, c: Call, phase: Phase)
    requires t.calls == s.calls[c := phase]
    requires c in s.calls && Owner(s.calls[c]) ==> Owner(phase)
    ensures |Owners(t)| == |Owners(s)| + if Owner(phase) && c !in Owners(s) then 1 else 0
  {
    assert Owners(t) == if Owner(phase) then Owners(s) + {c} else Owners(s);
  }

  lemma OwnersStep(s: System, e: Event)
    requires Enabled(s, e)
    ensures |Owners(Apply(s, e))| - |Owners(s)| == Proceeds(Apply(s, e)) - Proceeds(s)
  {
    var t := Apply(s, e);
    match e {
      case SetNx(c) => OwnersUpdate(s, t, c, if s.entry.None? then Working else Waiting);
      case SetNxLost(c, _) => OwnersUpdate(s, t, c, Answered(Unavailable));
      case Get(c) => OwnersUpdate(s, t, c, if s.entry.None? then Working else Answered(AnswerFor(s.entry)));
      case GetLost(c) => OwnersUpdate(s, t, c, Answered(Unavailable));
      case Complete(c, response) => OwnersUpdate(s, t, c, Done(response));
      case CompleteLost(c, response, _) => OwnersUpdate(s, t, c, Done(response));
      case Release(c) => OwnersUpdate(s, t, c, GaveUp);
      case ReleaseLost(c, _) => OwnersUpdate(s, t, c, GaveUp);
      case Expire => assert Owners(t) == Owners(s);
    }
  }

  // ----- Every run -----

  function Present(s: System): nat {
    if s.entry.Some? then 1 else 0
  }

  /** Each successful claim but the last was undone by an erasure, in every interleaving. */
  lemma {:induction false} ClaimsBounded(trace: seq<Event>)
    requires Possible(trace)
    ensures var s := Run(trace).value; s.claims <= s.erasures + Present(s)
  {
    if trace != [] {
      ClaimsBounded(trace[..|trace| - 1]);
    }
  }

  /** An answer, once given, stands: in particular a call that met a store error never proceeds. */
  lemma {:induction false} AnswersStand(trace: seq<Event>, k: nat, c: Call)
    requires Possible(trace) && k <= |trace|
    requires Run(trace[..k]).Some? && c in Run(trace[..k]).value.calls && Run(trace[..k]).value.calls[c].Answered?
    ensures c in Run(trace).value.calls && Run(trace).value.calls[c] == Run(trace[..k]).value.calls[c]
    decreases |trace|
  {
    if k == |trace| {
      assert trace[..k] == trace;
    } else {
      var n := |trace| - 1;
      assert trace[..n][..k] == trace[..k];
      AnswersStand(trace[..n], k, c);
    }
  }

  /** A lost store call inside `begin` is answered 503 at once. */
  lemma StoreErrorRefuses(s: System, e: Event)
    requires Enabled(s, e) && (e.SetNxLost? || e.GetLost?)
    ensures In(Apply(s, e), e.c, Answered(Unavailable))
    ensures Proceeds(Apply(s, e)) == Proceeds(s)
  {}

  /** Whatever happens later, a call that met a store error is answered 503 and is never told to proceed. */
  lemma StoreErrorNeverProceeds(trace: seq<Event>, k: nat)
    requires Possible(trace) && k < |trace| && (trace[k].SetNxLost? || trace[k].GetLost?)
    ensures In(Run(trace).value, trace[k].c, Answered(Unavailable))
    ensures trace[k].c !in Owners(Run(trace).value)
  {
    PrefixPossible(trace, k);
    StoreErrorRefuses(Run(trace[..k]).value, trace[k]);
    AnswersStand(trace, k + 1, trace[k].c);
  }

  // ----- Runs in which nothing is erased -----

  /** What holds while no entry has ever been removed. */
  ghost predicate Unerased(s: System) {
    && s.erasures == 0 && s.blind == 0 && s.claims <= Present(s)
    && (s.entry.None? ==> forall c :: c in s.calls ==> s.calls[c] == Answered(Unavailable))
    && (forall c, d :: c in s.calls && d in s.calls && Owner(s.calls[c]) && Owner(s.calls[d]) ==> c == d)
    && (forall c :: c in s.calls && Owner(s.calls[c]) ==> s.claims == 1)
    && (s.entry.Some? && s.entry.value.Recorded? ==> exists c :: In(s, c, Done(s.entry.value.response)))
    && (forall c :: c in s.calls && s.calls[c].Answered? && s.calls[c].answer.Replay? ==>
          s.entry == Some(Recorded(s.calls[c].answer.response)))
  }

  lemma {:induction false} UnerasedStep(s: System, e: Event)
    requires Unerased(s) && Enabled(s, e) && Apply(s, e).erasures == 0
    ensures Unerased(Apply(s, e))
  {
    var t := Apply(s, e);
    if e.Complete? || (e.CompleteLost? && e.applied) {
      assert In(t, e.c, Done(e.response));
    } else if s.entry.Some? && s.entry.value.Recorded? {
      var c :| In(s, c, Done(s.entry.value.response));
      assert In(t, c, Done(s.entry.value.response));
    }
  }

  lemma {:induction false} ErasuresGrow(trace: seq<Event>, k: nat)
    requires Possible(trace) && k <= |trace|
    ensures Possible(trace[..k]) && Run(trace[..k]).value.erasures <= Run(trace).value.erasures
    decreases |trace|
  {
    if k == |trace| {
      assert trace[..k] == trace;
    } else {
      var n := |trace| - 1;
      assert trace[..n][..k] == trace[..k];
      ErasuresGrow(trace[..n], k);
    }
  }

  lemma {:induction false} UnerasedRun(trace: seq<Event>)
    requires Possible(trace) && Run(trace).value.erasures == 0
    ensures Unerased(Run(trace).value)
  {
    if trace != [] {
      var n := |trace| - 1;
      ErasuresGrow(trace, n);
      UnerasedRun(trace[..n]);
      UnerasedStep(Run(trace[..n]).value, trace[n]);
    }
  }

  /**
    Without erasure at most one call is told to proceed, whatever the interleaving and whatever
    store calls are lost.
  */
  lemma AtMostOneProceeds(trace: seq<Event>)
    requires Possible(trace) && Run(trace).value.erasures == 0
    ensures Proceeds(Run(trace).value) <= 1
    ensures |Owners(Run(trace).value)| <= 1
  {
    UnerasedRun(trace);
    ProceedsAreOwners(trace);
  }

  lemma RecordedStep(s: System, e: Event, response: string)
    requires Unerased(s) && s.entry == Some(Recorded(response)) && Enabled(s, e) && Apply(s, e).erasures == 0
    ensures Apply(s, e).entry == Some(Recorded(response))
    ensures e.Get? ==> In(Apply(s, e), e.c, Answered(Replay(response)))
  {
    var owner :| In(s, owner, Done(response));
    assert Owner(s.calls[owner]);
  }

  ghost predicate Replayed(trace: seq<Event>, j: nat, response: string)
    requires j < |trace|
  {
    trace[j].Get? ==> Run(trace[..j + 1]).Some? && In(Run(trace[..j + 1]).value, trace[j].c, Answered(Replay(response)))
  }

  /** Without erasure a recorded response stays, and every later read replays exactly that response. */
  lemma {:induction false} RecordedResponseIsReplayed(trace: seq<Event>, k: nat, response: string)
    requires Possible(trace) && Run(trace).value.erasures == 0 && k <= |trace|
    requires Run(trace[..k]).Some? && Run(trace[..k]).value.entry == Some(Recorded(response))
    ensures Run(trace).value.entry == Some(Recorded(response))
    ensures forall j: nat :: k <= j < |trace| ==> Replayed(trace, j, response)
    decreases |trace|
  {
    if k == |trace| {
      assert trace[..k] == trace;
    } else {
      var n := |trace| - 1;
      var init := trace[..n];
      ErasuresGrow(trace, n);
      assert init[..k] == trace[..k];
      RecordedResponseIsReplayed(init, k, response);
      UnerasedRun(init);
      RecordedStep(Run(init).value, trace[n], response);
      forall j: nat | k <= j < |trace| ensures Replayed(trace, j, response) {
        if j < n {
          assert Replayed(init, j, response);
          assert init[..j + 1] == trace[..j + 1] && init[j] == trace[j];
        } else {
          assert trace[..j + 1] == trace;
        }
      }
    }
  }

  /** Without erasure a response that was recorded is what every later read replays. */
  lemma CompletedIsReplayed(trace: seq<Event>, k: nat, response: string)
    requires Possible(trace) && Run(trace).value.erasures == 0 && k < |trace|
    requires Records(trace[k], response)
    ensures forall j: nat :: k < j < |trace| ==> Replayed(trace, j, response)
  {
    PrefixPossible(trace, k);
    RecordedResponseIsReplayed(trace, k + 1, response);
  }

  // ----- The key and the answers, from the history alone -----

  /** A claim that reached the store. */
  predicate Marks(e: Event) {
    e.SetNx? || (e.SetNxLost? && e.applied)
  }

  /** A response that reached the store. */
  predicate Records(e: Event, response: string) {
    (e.Complete? || (e.CompleteLost? && e.applied)) && e.response == response
  }

  predicate RecordsAny(e: Event) {
    e.Complete? || (e.CompleteLost? && e.applied)
  }

  predicate Removes(e: Event) {
    e.Expire? || e.Release? || (e.ReleaseLost? && e.applied)
  }

  /** Whatever was written to the key has been removed since. */
  ghost predicate KeyMissing(trace: seq<Event>) {
    forall i :: 0 <= i < |trace| && (Marks(trace[i]) || RecordsAny(trace[i])) ==>
      exists j :: i < j < |trace| && Removes(trace[j])
  }

  /** The response is the last one recorded, and was not removed. */
  ghost predicate KeyHolds(trace: seq<Event>, response: string) {
    exists i :: 0 <= i < |trace| && Records(trace[i], response) && Untouched(trace, i)
  }

  ghost predicate Untouched(trace: seq<Event>, i: nat) {
    forall j :: i < j < |trace| ==> !Removes(trace[j]) && !RecordsAny(trace[j])
  }

  lemma KeyMissingStep(trace: seq<Event>)
    requires trace != []
    ensures var n := |trace| - 1;
            KeyMissing(trace) <==>
            Removes(trace[n]) || (!Marks(trace[n]) && !RecordsAny(trace[n]) && KeyMissing(trace[..n]))
  {
    var n := |trace| - 1;
    var init := trace[..n];
    if Removes(trace[n]) {
      forall i | 0 <= i < |trace| && (Marks(trace[i]) || RecordsAny(trace[i]))
        ensures exists j :: i < j < |trace| && Removes(trace[j])
      {
        assert i < n;
      }
    } else if KeyMissing(init) && !Marks(trace[n]) && !RecordsAny(trace[n]) {
      forall i | 0 <= i < |trace| && (Marks(trace[i]) || RecordsAny(trace[i]))
        ensures exists j :: i < j < |trace| && Removes(trace[j])
      {
        assert init[i] == trace[i];
        var j :| i < j < |init| && Removes(init[j]);
        assert trace[j] == init[j];
      }
    } else if KeyMissing(trace) {
      forall i | 0 <= i < |init| && (Marks(init[i]) || RecordsAny(init[i]))
        ensures exists j :: i < j < |init| && Removes(init[j])
      {
        assert trace[i] == init[i];
        var j :| i < j < |trace| && Removes(trace[j]);
        assert init[j] == trace[j];
      }
    }
  }

  lemma KeyHoldsStep(trace: seq<Event>, response: string)
    requires trace != []
    ensures var n := |trace| - 1;
            KeyHolds(trace, response) <==>
            || Records(trace[n], response)
            || (!Removes(trace[n]) && !RecordsAny(trace[n]) && KeyHolds(trace[..n], response))
  {
    var n := |trace| - 1;
    var init := trace[..n];
    if Records(trace[n], response) {
      assert Untouched(trace, n);
    }
    if i :| 0 <= i < |init| && Records(init[i], response) && Untouched(init, i)
            && !Removes(trace[n]) && !RecordsAny(trace[n])
    {
      assert Records(trace[i], response);
      forall j | i < j < |trace| ensures !Removes(trace[j]) && !RecordsAny(trace[j]) {
        assert j < n ==> trace[j] == init[j];
      }
      assert Untouched(trace, i);
    }
    if i :| 0 <= i < n && Records(trace[i], response) && Untouched(trace, i) {
      assert Records(init[i], response) && Untouched(init, i);
    }
  }

  /** The entry in the store, exactly, from the history. */
  lemma {:induction false} EntryExact(trace: seq<Event>)
    requires Possible(trace)
    ensures Run(trace).value.entry.None? <==> KeyMissing(trace)
    ensures forall response :: Run(trace).value.entry == Some(Recorded(response)) <==> KeyHolds(trace, response)
  {
    if trace != [] {
      EntryExact(trace[..|trace| - 1]);
      KeyMissingStep(trace);
      forall response ensures Run(trace).value.entry == Some(Recorded(response)) <==> KeyHolds(trace, response) {
        KeyHoldsStep(trace, response);
      }
    }
  }

  /** What a call is after its event, from what happened before it. */
  ghost predicate AnsweredFrom(before: seq<Event>, e: Event, s: System) {
    match e
    case SetNx(c) => In(s, c, if KeyMissing(before) then Working else Waiting)
    case SetNxLost(c, _) => In(s, c, Answered(Unavailable))
    case GetLost(c) => In(s, c, Answered(Unavailable))
    case Get(c) =>
      && (KeyMissing(before) ==> In(s, c, Working))
      && (forall response :: KeyHolds(before, response) ==> In(s, c, Answered(Replay(response))))
      && (!KeyMissing(before) && (forall response :: !KeyHolds(before, response)) ==> In(s, c, Answered(Conflict)))
    case _ => true
  }

  /**
    Every answer of `begin`, exactly, from the history: a claim proceeds when nothing is on the key; a
    read replays the last recorded response, answers 409 while the claim has none, proceeds when
    nothing is there, and a lost call is a 503.
  */
  lemma AnswersExact(trace: seq<Event>, k: nat)
    requires Possible(trace) && k < |trace|
    ensures Possible(trace[..k + 1]) && AnsweredFrom(trace[..k], trace[k], Run(trace[..k + 1]).value)
  {
    PrefixPossible(trace, k);
    EntryExact(trace[..k]);
    var entry := Run(trace[..k]).value.entry;
    if entry.Some? && entry.value.Recorded? {
      assert KeyHolds(trace[..k], entry.value.response);
    }
  }

  // ----- `begin` as one step -----

  /** Each read of the key follows its own refused claim at once: `begin` is not interrupted. */
  ghost predicate Uninterrupted(trace: seq<Event>) {
    forall i :: 0 <= i < |trace| && trace[i].Get? ==> i > 0 && trace[i - 1] == SetNx(trace[i].c)
  }

  lemma {:induction false} UninterruptedNeverBlind(trace: seq<Event>)
    requires Possible(trace) && Uninterrupted(trace)
    ensures Run(trace).value.blind == 0
  {
    if trace != [] {
      var n := |trace| - 1;
      assert forall i :: 0 <= i < n ==> trace[..n][i] == trace[i];
      UninterruptedNeverBlind(trace[..n]);
      if trace[n].Get? {
        var c := trace[n].c;
        assert trace[n - 1] == SetNx(c);
        PrefixPossible(trace, n - 1);
        assert trace[..n - 1 + 1] == trace[..n];
      }
    }
  }

  /** With `begin` atomic, the calls told to proceed are at most one more than the erasures. */
  lemma AtomicProceedsBounded(trace: seq<Event>)
    requires Possible(trace) && Uninterrupted(trace)
    ensures Proceeds(Run(trace).value) <= 1 + Run(trace).value.erasures
  {
    ClaimsBounded(trace);
    UninterruptedNeverBlind(trace);
  }

  // ----- Interrupted calls -----

  lemma EntryStep(s: System, e: Event)
    requires Enabled(s, e) && s.entry.Some? && Apply(s, e).erasures == s.erasures
    ensures Apply(s, e).entry.Some?
  {}

  lemma {:induction false} EntryStays(trace: seq<Event>, i: nat)
    requires Possible(trace) && i <= |trace|
    requires Possible(trace[..i]) && Run(trace[..i]).value.entry.Some?
    requires Run(trace).value.erasures == Run(trace[..i]).value.erasures
    ensures Run(trace).value.entry.Some?
    decreases |trace|
  {
    if i == |trace| {
      assert trace[..i] == trace;
    } else {
      var n := |trace| - 1;
      var init := trace[..n];
      assert init[..i] == trace[..i];
      ErasuresGrow(init, i);
      ErasuresGrow(trace, n);
      EntryStays(init, i);
      EntryStep(Run(init).value, trace[n]);
    }
  }

  /**
    A call that proceeds because its read found nothing had its refused claim before an erasure
    and its read after it: without an erasure in between it could not have happened.
  */
  lemma BlindNeedsErasure(trace: seq<Event>, i: nat, j: nat, c: Call)
    requires Possible(trace) && i < j < |trace|
    requires trace[i] == SetNx(c) && trace[j] == Get(c)
    requires Possible(trace[..i + 1]) && Possible(trace[..j]) && Possible(trace[..j + 1])
    requires In(Run(trace[..i + 1]).value, c, Waiting) && In(Run(trace[..j + 1]).value, c, Working)
    ensures Run(trace[..i + 1]).value.erasures < Run(trace[..j]).value.erasures
  {
    PrefixPossible(trace, i);
    PrefixPossible(trace, j);
    ErasuresGrow(trace[..j], i + 1);
    assert trace[..j][..i + 1] == trace[..i + 1];
    if Run(trace[..i + 1]).value.erasures == Run(trace[..j]).value.erasures {
      EntryStays(trace[..j], i + 1);
    }
  }

  // ----- Exactly when a call proceeds without a claim -----

  /** A read finds the key, or nothing is read at this point: the guard of the branch that proceeds blindly. */
  ghost predicate FindsKey(trace: seq<Event>, j: nat)
    requires j < |trace|
  {
    trace[j].Get? ==> Run(trace[..j]).Some? && Run(trace[..j]).value.entry.Some?
  }

  ghost predicate AllFind(trace: seq<Event>) {
    forall j: nat :: j < |trace| ==> FindsKey(trace, j)
  }

  lemma AllFindStep(trace: seq<Event>)
    requires trace != []
    ensures AllFind(trace) <==> AllFind(trace[..|trace| - 1]) && FindsKey(trace, |trace| - 1)
  {
    var n := |trace| - 1;
    var init := trace[..n];
    forall j: nat | j < n ensures FindsKey(trace, j) <==> FindsKey(init, j) {
      assert init[..j] == trace[..j];
    }
    if AllFind(trace) {
      forall j: nat | j < |init| ensures FindsKey(init, j) {
        assert FindsKey(trace, j);
      }
    }
  }

  /**
    The calls told to proceed are exactly the ones that made the claim if and only if every read,
    at its moment, finds the key.
  */
  lemma {:induction false} BlindExact(trace: seq<Event>)
    requires Possible(trace)
    ensures Run(trace).value.blind == 0 <==> AllFind(trace)
    ensures Proceeds(Run(trace).value) == Run(trace).value.claims <==> AllFind(trace)
  {
    if trace != [] {
      BlindExact(trace[..|trace| - 1]);
      AllFindStep(trace);
    }
  }

  function WaitingCalls(s: System): set<Call> {
    set c | c in s.calls && s.calls[c] == Waiting
  }

  /** The calls that were between their two steps when an entry was erased. */
  function Overtaken(trace: seq<Event>): set<Call>
    requires Possible(trace)
  {
    if trace == [] then {}
    else
      var n := |trace| - 1;
      var s := Run(trace[..n]).value;
      Overtaken(trace[..n]) + if Apply(s, trace[n]).erasures > s.erasures then WaitingCalls(s) else {}
  }

  /** While the key is missing every waiting call was overtaken, and each blind call was and waits no more. */
  ghost predicate Accounted(s: System, overtaken: set<Call>) {
    && (s.entry.None? ==> WaitingCalls(s) <= overtaken)
    && (forall c :: c in overtaken ==> c in s.calls)
    && s.blind <= |overtaken - WaitingCalls(s)|
  }

  lemma StillWaiting(s: System, e: Event)
    requires Enabled(s, e)
    ensures WaitingCalls(Apply(s, e)) ==
            if e.SetNx? && s.entry.Some? then WaitingCalls(s) + {e.c}
            else if e.Get? || e.GetLost? then WaitingCalls(s) - {e.c}
            else WaitingCalls(s)
  {}

  /** An erasure overtakes the waiting calls: they are added, but wait on. */
  lemma ErasureAccounted(s: System, e: Event, overtaken: set<Call>)
    requires Enabled(s, e) && Accounted(s, overtaken) && Apply(s, e).erasures > s.erasures
    ensures Accounted(Apply(s, e), overtaken + WaitingCalls(s))
  {
    StillWaiting(s, e);
    assert overtaken + WaitingCalls(s) - WaitingCalls(s) == overtaken - WaitingCalls(s);
  }

  /** A read makes its call wait no more; if it finds nothing, the call was overtaken. */
  lemma ReadAccounted(s: System, e: Event, overtaken: set<Call>)
    requires Enabled(s, e) && Accounted(s, overtaken) && (e.Get? || e.GetLost?)
    ensures Accounted(Apply(s, e), overtaken)
  {
    StillWaiting(s, e);
    var before, after := overtaken - WaitingCalls(s), overtaken - WaitingCalls(Apply(s, e));
    assert e.c in WaitingCalls(s);
    assert after == if e.c in overtaken then before + {e.c} else before;
  }

  lemma OtherAccounted(s: System, e: Event, overtaken: set<Call>)
    requires Enabled(s, e) && Accounted(s, overtaken)
    requires Apply(s, e).erasures == s.erasures && !e.Get? && !e.GetLost?
    ensures Accounted(Apply(s, e), overtaken)
  {
    StillWaiting(s, e);
    assert overtaken - WaitingCalls(Apply(s, e)) == overtaken - WaitingCalls(s);
  }

  lemma AccountedStep(s: System, e: Event, overtaken: set<Call>)
    requires Enabled(s, e) && Accounted(s, overtaken)
    ensures Accounted(Apply(s, e), overtaken + if Apply(s, e).erasures > s.erasures then WaitingCalls(s) else {})
  {
    assert overtaken + {} == overtaken;
    if Apply(s, e).erasures > s.erasures {
      ErasureAccounted(s, e, overtaken);
    } else if e.Get? || e.GetLost? {
      ReadAccounted(s, e, overtaken);
    } else {
      OtherAccounted(s, e, overtaken);
    }
  }

  lemma {:induction false} AccountedRun(trace: seq<Event>)
    requires Possible(trace)
    ensures Accounted(Run(trace).value, Overtaken(trace))
  {
    if trace != [] {
      var n := |trace| - 1;
      AccountedRun(trace[..n]);
      AccountedStep(Run(trace[..n]).value, trace[n], Overtaken(trace[..n]));
    }
  }

  /**
    In every history whatever: the calls told to proceed are at most the erasures, one more while
    the key is present, and the calls that an erasure overtook between their two steps.
  */
  lemma ProceedsBounded(trace: seq<Event>)
    requires Possible(trace)
    ensures var s := Run(trace).value;
            Proceeds(s) <= s.erasures + Present(s) + |Overtaken(trace)| <= 1 + s.erasures + |Overtaken(trace)|
  {
    ClaimsBounded(trace);
    AccountedRun(trace);
    var o, w := Overtaken(trace), WaitingCalls(Run(trace).value);
    assert |o - w| <= |o| by {
      assert o == (o - w) + (o * w);
    }
  }

  // ----- Any number of calls behind one erasure -----

  function Claims(n: nat): seq<Event> {
    if n == 0 then [SetNx(0)] else Claims(n - 1) + [SetNx(n)]
  }

  function Reads(n: nat): seq<Event> {
    if n == 0 then [] else Reads(n - 1) + [Get(n)]
  }

  ghost predicate AllWaiting(s: System, from: nat, to: nat) {
    forall c: nat :: from <= c <= to ==> In(s, c, Waiting)
  }

  ghost predicate Calls(s: System, n: nat) {
    forall c: nat :: c in s.calls <==> c <= n
  }

  lemma ClaimMore(s: System, n: nat)
    requires n >= 1 && s.entry == Some(InFlight) && Calls(s, n - 1) && AllWaiting(s, 1, n - 1)
    ensures Enabled(s, SetNx(n))
    ensures var t := Apply(s, SetNx(n)); t == s.(calls := t.calls) && Calls(t, n) && AllWaiting(t, 1, n)
  {
    forall c: nat | 1 <= c <= n ensures In(Apply(s, SetNx(n)), c, Waiting) {
      assert c < n ==> In(s, c, Waiting);
    }
  }

  lemma ReadMore(s: System, m: nat, n: nat)
    requires 1 <= m <= n && s.entry == None && AllWaiting(s, m, n)
    ensures Enabled(s, Get(m))
    ensures var t := Apply(s, Get(m)); t == s.(calls := t.calls, blind := s.blind + 1) && AllWaiting(t, m + 1, n)
  {
    forall c: nat | m < c <= n ensures In(Apply(s, Get(m)), c, Waiting) {
      assert In(s, c, Waiting);
    }
  }

  lemma RunMore(trace: seq<Event>, e: Event)
    requires Possible(trace) && Enabled(Run(trace).value, e)
    ensures Run(trace + [e]) == Some(Apply(Run(trace).value, e))
  {
    assert (trace + [e])[..|trace|] == trace;
  }

  lemma {:induction false} ClaimsRun(n: nat)
    ensures Possible(Claims(n))
    ensures var s := Run(Claims(n)).value;
            && s.entry == Some(InFlight) && s.claims == 1 && s.blind == 0 && s.erasures == 0
            && Calls(s, n) && AllWaiting(s, 1, n) && s.calls[0] == Working
  {
    if n == 0 {
      RunMore([], SetNx(0));
      assert [] + [SetNx(0)] == Claims(0);
    } else {
      ClaimsRun(n - 1);
      ClaimMore(Run(Claims(n - 1)).value, n);
      RunMore(Claims(n - 1), SetNx(n));
    }
  }

  /** The calls 1 to n. */
  function Numbers(n: nat): (calls: set<Call>)
    ensures |calls| == n && forall c: nat :: c in calls <==> 1 <= c <= n
  {
    if n == 0 then {} else Numbers(n - 1) + {n}
  }

  lemma NoneOvertaken(trace: seq<Event>, e: Event)
    requires Possible(trace) && Enabled(Run(trace).value, e)
    requires Apply(Run(trace).value, e).erasures == Run(trace).value.erasures
    ensures Possible(trace + [e]) && Overtaken(trace + [e]) == Overtaken(trace)
  {
    RunMore(trace, e);
    assert (trace + [e])[..|trace|] == trace;
  }

  lemma {:induction false} ClaimsOvertaken(n: nat)
    ensures Possible(Claims(n)) && Overtaken(Claims(n)) == {}
  {
    ClaimsRun(n);
    if n == 0 {
      NoneOvertaken([], SetNx(0));
      assert [] + [SetNx(0)] == Claims(0);
    } else {
      ClaimsRun(n - 1);
      ClaimsOvertaken(n - 1);
      NoneOvertaken(Claims(n - 1), SetNx(n));
    }
  }

  lemma NumbersWait(s: System, n: nat)
    requires Calls(s, n) && AllWaiting(s, 1, n) && s.calls[0] == Working
    ensures WaitingCalls(s) == Numbers(n)
  {
    forall c: Call ensures c in WaitingCalls(s) <==> c in Numbers(n) {
      if 1 <= c <= n {
        assert In(s, c, Waiting);
      }
    }
  }

  lemma ErasedWait(s: System, n: nat)
    requires AllWaiting(s, 1, n)
    ensures AllWaiting(Erased(s), 1, n)
  {
    forall c: nat | 1 <= c <= n ensures In(Erased(s), c, Waiting) {
      assert In(s, c, Waiting);
    }
  }

  /** An erasure overtakes all the calls that wait. */
  lemma ExpiryOvertakes(trace: seq<Event>, n: nat)
    requires Possible(trace) && Run(trace).value.entry.Some?
    requires var s := Run(trace).value; Calls(s, n) && AllWaiting(s, 1, n) && s.calls[0] == Working
    ensures Possible(trace + [Expire]) && Run(trace + [Expire]) == Some(Erased(Run(trace).value))
    ensures Overtaken(trace + [Expire]) == Overtaken(trace) + Numbers(n)
  {
    NumbersWait(Run(trace).value, n);
    RunMore(trace, Expire);
    assert (trace + [Expire])[..|trace|] == trace;
  }

  lemma ReadNext(trace: seq<Event>, m: nat, n: nat)
    requires Possible(trace) && 1 <= m <= n
    requires Run(trace).value.entry == None && AllWaiting(Run(trace).value, m, n)
    ensures Possible(trace + [Get(m)]) && Overtaken(trace + [Get(m)]) == Overtaken(trace)
    ensures var s, t := Run(trace).value, Run(trace + [Get(m)]).value;
            t == s.(calls := t.calls, blind := s.blind + 1) && AllWaiting(t, m + 1, n)
  {
    ReadMore(Run(trace).value, m, n);
    RunMore(trace, Get(m));
    NoneOvertaken(trace, Get(m));
  }

  /** After a trace that leaves the key missing and calls waiting, they all read nothing and proceed. */
  lemma {:induction false} ReadsRun(trace: seq<Event>, n: nat, m: nat)
    requires Possible(trace) && m <= n
    requires Run(trace).value.entry == None && AllWaiting(Run(trace).value, 1, n)
    ensures Possible(trace + Reads(m)) && Overtaken(trace + Reads(m)) == Overtaken(trace)
    ensures var s, t := Run(trace).value, Run(trace + Reads(m)).value;
            t == s.(calls := t.calls, blind := s.blind + m) && AllWaiting(t, m + 1, n)
  {
    if m == 0 {
      assert trace + Reads(0) == trace;
    } else {
      ReadsRun(trace, n, m - 1);
      ReadNext(trace + Reads(m - 1), m, n);
      assert trace + Reads(m - 1) + [Get(m)] == trace + Reads(m);
    }
  }

  /**
    The bound is reached: for every n there is a run with a single erasure, which overtakes n calls,
    in which n + 1 calls are told to proceed.
  */
  lemma OneErasureManyProceed(n: nat) returns (trace: seq<Event>)
    ensures Possible(trace)
    ensures Run(trace).value.erasures == 1 && Proceeds(Run(trace).value) == n + 1
    ensures Run(trace).value.entry.None? && |Overtaken(trace)| == n
  {
    ClaimsRun(n);
    ClaimsOvertaken(n);
    ExpiryOvertakes(Claims(n), n);
    var expired := Claims(n) + [Expire];
    ErasedWait(Run(Claims(n)).value, n);
    ReadsRun(expired, n, n);
    trace := expired + Reads(n);
  }
}
