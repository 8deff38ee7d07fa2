/** Delivery statuses: out-of-order and repeated reports settle to the same status. */
module MessageStatus {

  datatype Status = Accepted | Sent | Delivered | Read | Failed | Other(name: string)

  function StatusRank(s: Status): int {
    match s
    case Accepted => 0
    case Sent => 1
    case Delivered => 2
    case Read => 3
    case _ => -1
  }

  predicate Terminal(s: Status) {
    s == Failed
  }

  predicate Advances(current: Status, incoming: Status) {
    if Terminal(current) then false
    else if Terminal(incoming) then true
    else StatusRank(incoming) > StatusRank(current)
  }

  /** Apply a report if it is a step forward. */
  function Settle(current: Status, incoming: Status): Status {
    if Advances(current, incoming) then incoming else current
  }

  function Fold(start: Status, reports: seq<Status>): Status
    decreases |reports|
  {
    if reports == [] then start else Fold(Settle(start, reports[0]), reports[1..])
  }

  function Changes(start: Status, reports: seq<Status>): nat
    decreases |reports|
  {
    if reports == [] then 0
    else (if Advances(start, reports[0]) then 1 else 0) + Changes(Settle(start, reports[0]), reports[1..])
  }

  /** The status reached: failed if that was ever reported, otherwise the highest rank seen. */
  ghost predicate Reached(start: Status, reports: seq<Status>, end: Status) {
    if start == Failed || Failed in reports then end == Failed
    else
      && (end == start || end in reports)
      && StatusRank(end) >= StatusRank(start)
      && (forall s :: s in reports ==> StatusRank(s) <= StatusRank(end))
      && (StatusRank(end) == StatusRank(start) ==> end == start)
  }

  /** Which report changes which status, one by one: a step up the ladder, or a failure, and nothing after a failure. */
  lemma AdvancesExact(current: Status, incoming: Status)
    ensures Advances(current, incoming) <==>
            current != Failed
            && match incoming
               case Failed => true
               case Read => current != Read
               case Delivered => current != Read && current != Delivered
               case Sent => current != Read && current != Delivered && current != Sent
               case Accepted => current != Read && current != Delivered && current != Sent && current != Accepted
               case Other(_) => false
  {}

  /** Where a message that was accepted ends: failed, or else at the furthest status reported. */
  lemma FinalStatus(reports: seq<Status>)
    ensures Fold(Accepted, reports) ==
            if Failed in reports then Failed
            else if Read in reports then Read
            else if Delivered in reports then Delivered
            else if Sent in reports then Sent
            else Accepted
  {
    FoldReaches(Accepted, reports);
  }


  lemma {:induction false} FoldReaches(start: Status, reports: seq<Status>)
    ensures Reached(start, reports, Fold(start, reports))
    decreases |reports|
  {
    if reports != [] {
      FoldReaches(Settle(start, reports[0]), reports[1..]);
      assert forall s :: s in reports <==> s == reports[0] || s in reports[1..];
    }
  }

  lemma ReachedIsUnique(start: Status, reports: seq<Status>, a: Status, b: Status)
    requires Reached(start, reports, a) && Reached(start, reports, b)
    ensures a == b
  {
    if start != Failed && Failed !in reports {
      assert StatusRank(a) == StatusRank(b);
      if StatusRank(a) == -1 {
        assert a == start && b == start;
      }
    }
  }

  /** Neither the order of the reports nor their repetition matters. */
  lemma OrderAndRepetitionIrrelevant(start: Status, reports: seq<Status>, others: seq<Status>)
    requires forall s :: s in reports <==> s in others
    ensures Fold(start, reports) == Fold(start, others)
  {
    FoldReaches(start, reports);
    FoldReaches(start, others);
    ReachedIsUnique(start, reports, Fold(start, reports), Fold(start, others));
  }

  function StepsLeft(s: Status): nat {
    if s == Failed then 0 else 4 - (if StatusRank(s) < 0 then -1 else StatusRank(s))
  }

  lemma {:induction false} ChangesWithin(start: Status, reports: seq<Status>)
    ensures Changes(start, reports) <= StepsLeft(start)
    decreases |reports|
  {
    if reports != [] {
      ChangesWithin(Settle(start, reports[0]), reports[1..]);
    }
  }

  /** However long the stream, a message accepts at most four changes; and four are possible. */
  lemma AtMostFourChanges(reports: seq<Status>)
    ensures Changes(Accepted, reports) <= 4
    ensures Changes(Accepted, [Sent, Delivered, Read, Failed]) == 4
  {
    ChangesWithin(Accepted, reports);
    assert [Sent, Delivered, Read, Failed][1..] == [Delivered, Read, Failed];
    assert [Delivered, Read, Failed][1..] == [Read, Failed];
    assert [Read, Failed][1..] == [Failed];
  }
}
