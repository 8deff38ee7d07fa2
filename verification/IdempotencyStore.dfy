/** The store that holds the keys, and begin, complete and release as they call it. */
module IdempotencyStore {
  import opened Wrappers
  import opened Idempotency

  /** What becomes of one call to the store: a call can be lost on the way there or on the way back. */
  datatype Fault = Works | NeverArrives | AnswerLost

  const PREFIX := "idem:"

  class Store {
    var entries: map<string, Entry>

    constructor ()
      ensures entries == map[]
    {
      entries := map[];
    }

    function EntryAt(key: string): Option<Entry>
      reads this
    {
      if key in entries then Some(entries[key]) else None
    }

    /** SET key marker NX */
    method SetNx(key: string, fault: Fault) returns (claimed: Option<bool>)
      modifies this
      ensures claimed == if fault == Works then Some(old(EntryAt(key)).None?) else None
      ensures entries == if fault == NeverArrives || old(EntryAt(key)).Some? then old(entries)
                         else old(entries)[key := InFlight]
    {
      var free := key !in entries;
      if fault != NeverArrives && free {
        entries := entries[key := InFlight];
      }
      claimed := if fault == Works then Some(free) else None;
    }

    /** GET key; None is a lost call. */
    method Get(key: string, fault: Fault) returns (stored: Option<Option<Entry>>)
      ensures stored == if fault == Works then Some(EntryAt(key)) else None
    {
      stored := if fault == Works then Some(EntryAt(key)) else None;
    }

    /**
      Claim the key, or answer from what is stored. Not interrupted by another client, this is
      the two steps of the transition system in a row.
    */
    method Begin(key: string, claimFault: Fault, readFault: Fault) returns (answer: Answer)
      modifies this
      ensures forall s: System, c: Call :: s.entry == old(EntryAt(PREFIX + key)) && c !in s.calls ==>
                var t := BeginAlone(s, c, claimFault, readFault);
                EntryAt(PREFIX + key) == t.entry && In(t, c, PhaseFor(answer))
      ensures answer == if claimFault != Works then Unavailable
                        else match old(EntryAt("idem:" + key))
                             case None => Proceed
                             case Some(InFlight) => if readFault == Works then Conflict else Unavailable
                             case Some(Recorded(r)) => if readFault == Works then Replay(r) else Unavailable
      ensures EntryAt("idem:" + key) ==
              if claimFault != NeverArrives && old(EntryAt("idem:" + key)).None? then Some(InFlight)
              else old(EntryAt("idem:" + key))
      ensures forall other :: other != "idem:" + key ==> EntryAt(other) == old(EntryAt(other))
    {
      var claimed := SetNx(PREFIX + key, claimFault);
      if claimed.None? {
        return Unavailable;
      }
      if claimed.value {
        return Proceed;
      }
      answer := ReadBack(key, readFault);
    }

    /** The second step: other clients and the expiry may have come before it. */
    method ReadBack(key: string, fault: Fault) returns (answer: Answer)
      ensures fault == Works ==> answer == AnswerFor(EntryAt("idem:" + key))
      ensures answer == if fault != Works then Unavailable
                        else match EntryAt("idem:" + key)
                             case None => Proceed
                             case Some(InFlight) => Conflict
                             case Some(Recorded(response)) => Replay(response)
    {
      var stored := Get(PREFIX + key, fault);
      if stored.None? {
        return Unavailable;
      }
      match stored.value {
        case None => return Proceed;
        case Some(InFlight) => return Conflict;
        case Some(Recorded(response)) => return Replay(response);
      }
    }

    /** Record the response. A lost call is swallowed: the work has succeeded. */
    method Complete(key: string, response: string, fault: Fault)
      modifies this
      ensures forall s: System, c: Call :: s.entry == old(EntryAt(PREFIX + key)) && In(s, c, Working) ==>
                EntryAt(PREFIX + key) == Apply(s, CompleteEvent(c, response, fault)).entry
      ensures EntryAt("idem:" + key) ==
              if fault == NeverArrives then old(EntryAt("idem:" + key)) else Some(Recorded(response))
      ensures forall other :: other != "idem:" + key ==> EntryAt(other) == old(EntryAt(other))
    {
      if fault != NeverArrives {
        entries := entries[PREFIX + key := Recorded(response)];
      }
    }

    /** Drop the claim of a request that failed. */
    method Release(key: string, fault: Fault)
      modifies this
      ensures forall s: System, c: Call :: s.entry == old(EntryAt(PREFIX + key)) && In(s, c, Working) ==>
                EntryAt(PREFIX + key) == Apply(s, ReleaseEvent(c, fault)).entry
      ensures EntryAt("idem:" + key) ==
              if fault == NeverArrives then old(EntryAt("idem:" + key)) else None
      ensures forall other :: other != "idem:" + key ==> EntryAt(other) == old(EntryAt(other))
    {
      if fault != NeverArrives {
        entries := entries - {PREFIX + key};
      }
    }
  }

  function PhaseFor(answer: Answer): Phase {
    if answer == Proceed then Working else Answered(answer)
  }

  function CompleteEvent(c: Call, response: string, fault: Fault): Event {
    if fault == Works then Idempotency.Complete(c, response) else CompleteLost(c, response, fault == AnswerLost)
  }

  function ReleaseEvent(c: Call, fault: Fault): Event {
    if fault == Works then Idempotency.Release(c) else ReleaseLost(c, fault == AnswerLost)
  }

  /** A `begin` that nothing interrupts, as steps of the system. */
  function BeginAlone(s: System, c: Call, claimFault: Fault, readFault: Fault): System
    requires c !in s.calls
  {
    if claimFault != Works then Apply(s, SetNxLost(c, claimFault == AnswerLost))
    else
      var t := Apply(s, Idempotency.SetNx(c));
      if In(t, c, Working) then t
      else if readFault == Works then Apply(t, Idempotency.Get(c))
      else Apply(t, GetLost(c))
  }

  /** Uninterrupted, `begin` proceeds exactly when the key is free and the claim is not lost. */
  lemma BeginAloneProceeds(s: System, c: Call, claimFault: Fault, readFault: Fault)
    requires c !in s.calls
    ensures In(BeginAlone(s, c, claimFault, readFault), c, Working) <==> s.entry.None? && claimFault == Works
    ensures BeginAlone(s, c, claimFault, readFault).blind == s.blind
  {}
}
