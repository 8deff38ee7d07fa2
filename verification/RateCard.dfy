/** The rate card: the single lookup, the batched lookup that refines it, and the currencies in force. */
module RateCard {
  import opened Wrappers

  datatype Card = Card(country: string, category: string, price: real, currency: string, from: int, to: Option<int>)

  type Pair = (string, string)

  function PairOf(c: Card): Pair {
    (c.country, c.category)
  }

  /** Within the card's half-open window; an open end is still in force. */
  predicate InForce(c: Card, at: int) {
    match c.to
    case None => c.from <= at
    case Some(to) => c.from <= at < to
  }

  /** The WHERE clause of the three queries: started, and not ended. */
  predicate Valid(c: Card, at: int) {
    !(c.from > at) && (c.to.None? || c.to.value > at)
  }

  /** uq_ratecard_slot: one row per pair and start. The windows themselves may overlap. */
  ghost predicate UniqueSlots(table: seq<Card>) {
    forall i, j :: 0 <= i < j < |table| ==> !(PairOf(table[i]) == PairOf(table[j]) && table[i].from == table[j].from)
  }

  // ----- What the database may answer -----

  /**
    An answer to SELECT .. WHERE .. ORDER BY effective_from: the rows that the condition keeps,
    each as often as in the table, in that order. Rows with equal starts come in any order.
  */
  ghost predicate Answers(rows: seq<Card>, table: seq<Card>, keep: Card -> bool, descending: bool) {
    && (forall c :: multiset(rows)[c] == if keep(c) then multiset(table)[c] else 0)
    && forall i, j :: 0 <= i < j < |rows| ==>
      if descending then rows[i].from >= rows[j].from else rows[i].from <= rows[j].from
  }

  lemma AnswerMembers(rows: seq<Card>, table: seq<Card>, keep: Card -> bool, descending: bool)
    requires Answers(rows, table, keep, descending)
    ensures forall c :: c in rows <==> c in table && keep(c)
  {
    forall c ensures c in rows <==> c in table && keep(c) {
      assert c in rows <==> multiset(rows)[c] > 0;
      assert c in table <==> multiset(table)[c] > 0;
    }
  }

  // ----- The rate in force -----

  /** The newest card in force for the pair. */
  ghost predicate IsRate(table: seq<Card>, pair: Pair, at: int, c: Card) {
    && c in table && c.country == pair.0 && c.category == pair.1 && InForce(c, at)
    && forall d :: d in table && PairOf(d) == pair && InForce(d, at) ==> d.from <= c.from
  }

  ghost predicate Priced(table: seq<Card>, pair: Pair, at: int) {
    exists c :: c in table && PairOf(c) == pair && InForce(c, at)
  }

  lemma RateIsUnique(table: seq<Card>, pair: Pair, at: int, c: Card, d: Card)
    requires UniqueSlots(table) && IsRate(table, pair, at, c) && IsRate(table, pair, at, d)
    ensures c == d
  {
    var i :| 0 <= i < |table| && table[i] == c;
    var j :| 0 <= j < |table| && table[j] == d;
    assert PairOf(table[i]) == PairOf(table[j]) && table[i].from == table[j].from;
  }

  function ForPair(pair: Pair, at: int): Card -> bool {
    (c: Card) => c.country == pair.0 && c.category == pair.1 && Valid(c, at)
  }

  /** RateCardRepository.resolve, whatever order the database gives to equal starts. */
  method Resolve(table: seq<Card>, pair: Pair, at: int, answer: seq<Card>) returns (r: Option<Card>)
    requires Answers(answer, table, ForPair(pair, at), true)
    ensures r.Some? ==> IsRate(table, pair, at, r.value)
    ensures r.None? <==> !Priced(table, pair, at)
    ensures r.Some? ==> r.value.currency in CurrenciesInForce(table, at)
  {
    AnswerMembers(answer, table, ForPair(pair, at), true);
    if answer == [] {
      return None;
    }
    forall d | d in table && PairOf(d) == pair && InForce(d, at) ensures d.from <= answer[0].from {
      assert d in answer;
    }
    assert answer[0] in answer;
    return Some(answer[0]);
  }

  function Wanted(countries: set<string>, categories: set<string>, at: int): Card -> bool {
    (c: Card) => c.country in countries && c.category in categories && Valid(c, at)
  }

  ghost predicate Mentions(rows: seq<Card>, p: Pair) {
    exists c :: c in rows && PairOf(c) == p
  }

  /** The last row of a pair among the first rows of the answer: what the loop has kept so far. */
  ghost predicate KeptSoFar(resolved: map<Pair, Card>, rows: seq<Card>, pairs: seq<Pair>) {
    && (forall p :: p in resolved <==> p in pairs && Mentions(rows, p))
    && (forall p :: p in resolved ==> resolved[p] in rows && PairOf(resolved[p]) == p)
    && (forall p, c :: p in resolved && c in rows && PairOf(c) == p ==> c.from <= resolved[p].from)
  }

  lemma KeepNext(resolved: map<Pair, Card>, rows: seq<Card>, pairs: seq<Pair>, row: Card)
    requires KeptSoFar(resolved, rows, pairs)
    requires forall c :: c in rows ==> c.from <= row.from
    ensures KeptSoFar(if PairOf(row) in pairs then resolved[PairOf(row) := row] else resolved, rows + [row], pairs)
  {
    var more := rows + [row];
    assert forall c :: c in more <==> c in rows || c == row;
    forall p ensures Mentions(more, p) <==> Mentions(rows, p) || PairOf(row) == p {
      assert row in more;
    }
  }

  /** RateCardRepository.resolve_many: one query for the countries and categories, then the last write wins. */
  method ResolveMany(table: seq<Card>, pairs: seq<Pair>, at: int, answer: seq<Card>) returns (resolved: map<Pair, Card>)
    requires var countries := set p | p in pairs :: p.0;
             var categories := set p | p in pairs :: p.1;
             Answers(answer, table, Wanted(countries, categories, at), false)
    ensures forall p :: p in resolved <==> p in pairs && Priced(table, p, at)
    ensures forall p :: p in resolved ==> IsRate(table, p, at, resolved[p])
    ensures forall p :: p in resolved ==> resolved[p].currency in CurrenciesInForce(table, at)
  {
    resolved := map[];
    if pairs == [] {
      return;
    }
    ghost var keep := Wanted(set p | p in pairs :: p.0, set p | p in pairs :: p.1, at);
    AnswerMembers(answer, table, keep, false);
    for i := 0 to |answer|
      invariant KeptSoFar(resolved, answer[..i], pairs)
    {
      var row := answer[i];
      KeepNext(resolved, answer[..i], pairs, row);
      assert answer[..i + 1] == answer[..i] + [row];
      if PairOf(row) in pairs {
        resolved := resolved[PairOf(row) := row];
      }
    }
    assert answer[..|answer|] == answer;
    forall p, c | p in pairs && c in table && PairOf(c) == p && InForce(c, at) ensures c in answer {
      assert keep(c);
    }
  }

  /**
    The batch refines the single lookup: each requested pair maps to what the single lookup
    returns, is absent exactly when that is None, and no other pair appears.
  */
  lemma BatchRefinesSingle(table: seq<Card>, pairs: seq<Pair>, at: int, resolved: map<Pair, Card>, p: Pair,
                           single: Option<Card>)
    requires UniqueSlots(table)
    requires forall q :: q in resolved <==> q in pairs && Priced(table, q, at)
    requires forall q :: q in resolved ==> IsRate(table, q, at, resolved[q])
    requires single.Some? ==> IsRate(table, p, at, single.value)
    requires single.None? <==> !Priced(table, p, at)
    ensures p in pairs ==> single == if p in resolved then Some(resolved[p]) else None
    ensures p !in pairs ==> p !in resolved
  {
    if p in resolved {
      RateIsUnique(table, p, at, resolved[p], single.value);
    }
  }

  /** Both lookups, side by side, on answers that the database may have ordered differently. */
  method ResolveBothWays(table: seq<Card>, pairs: seq<Pair>, at: int, answer: seq<Card>, p: Pair,
                         singleAnswer: seq<Card>)
    returns (resolved: map<Pair, Card>, single: Option<Card>)
    requires UniqueSlots(table) && p in pairs
    requires Answers(answer, table, Wanted(set q | q in pairs :: q.0, set q | q in pairs :: q.1, at), false)
    requires Answers(singleAnswer, table, ForPair(p, at), true)
    ensures single == if p in resolved then Some(resolved[p]) else None
    ensures forall q :: q in resolved ==> q in pairs
  {
    resolved := ResolveMany(table, pairs, at, answer);
    single := Resolve(table, p, at, singleAnswer);
    BatchRefinesSingle(table, pairs, at, resolved, p, single);
  }

  // ----- Currencies -----

  /** RateCardRepository.currencies_in_force */
  function CurrenciesInForce(table: seq<Card>, at: int): set<string> {
    set c | c in table && Valid(c, at) :: c.currency
  }

  /** The currencies are those of the cards in force, and no others. */
  lemma CurrenciesExact(table: seq<Card>, at: int)
    ensures forall currency :: currency in CurrenciesInForce(table, at) <==>
              exists c :: c in table && InForce(c, at) && c.currency == currency
  {}

  /** If one currency is in force, every rate resolved by either lookup is in that currency. */
  lemma ResolvedCurrency(table: seq<Card>, pair: Pair, at: int, c: Card)
    requires IsRate(table, pair, at, c)
    ensures c.currency in CurrenciesInForce(table, at)
    ensures forall currency :: CurrenciesInForce(table, at) == {currency} ==> c.currency == currency
  {
    assert c.currency in CurrenciesInForce(table, at);
  }
}
