/**
  Keyset pagination, once for every list in the repository: a page is the first `limit` rows,
  in list order, that the clauses select, and the next page is asked for with a clause built
  from the last row of the page before.

  The main result is about whole traversals: if that clause selects exactly the rows that
  stand after the cursor row, following the cursors visits the sorted, filtered table once.
*/
module Keyset {
  import opened Wrappers
  import opened Sql
  import opened Sorting

  // ----- One statement -----

  function OrderBy(order: seq<OrderTerm>): (Row, Row) -> bool {
    (a, b) => AtMost(order, a, b)
  }

  function Filter(rows: seq<Row>, where: seq<Cond>, db: Database): seq<Row> {
    if rows == [] then []
    else (if AllHold(where, db, rows[0]) then [rows[0]] else []) + Filter(rows[1..], where, db)
  }

  function Take<T>(s: seq<T>, n: nat): (r: seq<T>)
    ensures r <= s && |r| == if n < |s| then n else |s|
  {
    if |s| <= n then s else s[..n]
  }

  /** SELECT .. WHERE where ORDER BY order LIMIT limit */
  function Select(table: seq<Row>, where: seq<Cond>, order: seq<OrderTerm>, limit: nat, db: Database): seq<Row> {
    Take(Sort(OrderBy(order), Filter(table, where, db)), limit)
  }

  lemma OrderByIsPreorder(order: seq<OrderTerm>)
    ensures TotalPreorder(OrderBy(order))
  {
    var leq := OrderBy(order);
    forall a, b ensures leq(a, b) || leq(b, a) {
      AtMostIsTotal(order, a, b);
    }
    forall a, b, c | leq(a, b) && leq(b, c) ensures leq(a, c) {
      AtMostIsTransitive(order, a, b, c);
    }
  }

  lemma {:induction false} FilterMembers(rows: seq<Row>, where: seq<Cond>, db: Database)
    ensures forall r :: r in Filter(rows, where, db) <==> r in rows && AllHold(where, db, r)
    ensures |Filter(rows, where, db)| <= |rows|
  {
    if rows != [] {
      FilterMembers(rows[1..], where, db);
      assert rows == [rows[0]] + rows[1..];
    }
  }

  // ----- Lists and pages -----

  /** `after(r)` is the clause of a page whose cursor was taken from row `r`. */
  datatype Listing = Listing(where: seq<Cond>, order: seq<OrderTerm>, after: Row -> Cond)

  datatype Page = Page(rows: seq<Row>, hasMore: bool)

  function PageOf(found: seq<Row>, limit: nat): Page {
    Page(Take(found, limit), |found| > limit)
  }

  function Fetch(table: seq<Row>, db: Database, l: Listing, cursor: Option<Row>, limit: nat): Page {
    var clauses := l.where + (if cursor.None? then [] else [l.after(cursor.value)]);
    PageOf(Select(table, clauses, l.order, limit + 1, db), limit)
  }

  /** The whole list, unpaged. */
  function Full(table: seq<Row>, db: Database, l: Listing): seq<Row> {
    Sort(OrderBy(l.order), Filter(table, l.where, db))
  }

  lemma FullMembers(table: seq<Row>, db: Database, l: Listing, r: Row)
    ensures r in Full(table, db, l) <==> r in table && AllHold(l.where, db, r)
  {
    FilterMembers(table, l.where, db);
    SameElements(Full(table, db, l), Filter(table, l.where, db));
  }

  ghost predicate DistinctIds(table: seq<Row>) {
    forall i, j :: 0 <= i < j < |table| ==> Cell(table[i], Id) != Cell(table[j], Id)
  }

  /** The keyset clause selects exactly the listed rows that must stand after the cursor row. */
  ghost predicate Exact(table: seq<Row>, db: Database, l: Listing) {
    forall a, b :: a in table && b in table && AllHold(l.where, db, a) && AllHold(l.where, db, b) ==>
      (Holds(l.after(a), db, b) <==> Before(l.order, a, b))
  }

  ghost predicate HasTiebreak(order: seq<OrderTerm>) {
    exists term :: term in order && term.e == Col(Id)
  }

  ghost predicate Pageable(table: seq<Row>, db: Database, l: Listing) {
    DistinctIds(table) && HasTiebreak(l.order) && Exact(table, db, l)
  }

  // ----- The list has one order -----

  lemma {:induction false} FilterKeepsDistinct(rows: seq<Row>, where: seq<Cond>, db: Database)
    requires DistinctIds(rows)
    ensures DistinctIds(Filter(rows, where, db))
  {
    if rows != [] {
      FilterKeepsDistinct(rows[1..], where, db);
      FilterMembers(rows[1..], where, db);
      var rest := Filter(rows[1..], where, db);
      forall r | r in rest ensures Cell(rows[0], Id) != Cell(r, Id) {
        assert r in rows[1..];
      }
    }
  }

  lemma DistinctRowsUntied(order: seq<OrderTerm>, rows: seq<Row>)
    requires DistinctIds(rows) && HasTiebreak(order)
    ensures Untied(OrderBy(order), rows)
  {
    var term :| term in order && term.e == Col(Id);
    var leq := OrderBy(order);
    forall a, b | a in rows && b in rows && leq(a, b) && leq(b, a) ensures a == b {
      TiedRowsAgree(order, a, b, term);
      var i :| 0 <= i < |rows| && rows[i] == a;
      var j :| 0 <= j < |rows| && rows[j] == b;
    }
  }

  /** Each row of the list stands strictly before every later one. */
  ghost predicate Ascending(order: seq<OrderTerm>, s: seq<Row>) {
    forall i, j :: 0 <= i < |s| && 0 <= j < |s| ==> (Before(order, s[i], s[j]) <==> i < j)
  }

  /** The multiset of a sequence with distinct identifiers holds each row once. */
  lemma {:induction false} DistinctOnce(s: seq<Row>)
    requires DistinctIds(s)
    ensures forall r :: r in multiset(s) ==> multiset(s)[r] == 1
  {
    if s != [] {
      assert s == [s[0]] + s[1..];
      DistinctOnce(s[1..]);
      assert s[0] !in s[1..];
    }
  }

  lemma {:induction false} OnceMeansDifferent(s: seq<Row>, i: int, j: int)
    requires 0 <= i < j < |s| && multiset(s)[s[i]] == 1
    ensures s[i] != s[j]
  {
    var front, back := s[..i + 1], s[i + 1..];
    assert s == front + back;
    assert multiset(s)[s[i]] == multiset(front)[s[i]] + multiset(back)[s[i]];
    assert front[i] == s[i] && s[i] in front;
    assert back[j - i - 1] == s[j] && s[j] in back;
  }

  lemma AscendingOnce(order: seq<OrderTerm>, s: seq<Row>)
    requires IsSorted(OrderBy(order), s) && Untied(OrderBy(order), s)
    requires forall r :: r in multiset(s) ==> multiset(s)[r] == 1
    ensures Ascending(order, s)
  {
    var leq := OrderBy(order);
    forall i, j | 0 <= i < |s| && 0 <= j < |s|
      ensures Before(order, s[i], s[j]) <==> i < j
    {
      if i < j {
        OnceMeansDifferent(s, i, j);
        assert leq(s[i], s[j]);
      } else if j < i {
        assert leq(s[j], s[i]);
      } else {
        AtMostIsTotal(order, s[i], s[i]);
      }
    }
  }

  lemma SortAscends(order: seq<OrderTerm>, rows: seq<Row>)
    requires DistinctIds(rows) && HasTiebreak(order)
    ensures Ascending(order, Sort(OrderBy(order), rows))
  {
    var s := Sort(OrderBy(order), rows);
    OrderByIsPreorder(order);
    SortSorts(OrderBy(order), rows);
    SameElements(s, rows);
    DistinctRowsUntied(order, rows);
    DistinctOnce(rows);
    AscendingOnce(order, s);
  }

  // ----- One page -----

  lemma {:induction false} FilterByMore(rows: seq<Row>, where: seq<Cond>, more: Cond, db: Database)
    ensures Filter(rows, where + [more], db) == Filter(Filter(rows, where, db), [more], db)
  {
    if rows != [] {
      FilterByMore(rows[1..], where, more, db);
      var r := rows[0];
      assert AllHold(where + [more], db, r) <==> AllHold(where, db, r) && AllHold([more], db, r) by {
        assert forall c :: c in where + [more] <==> c in where || c in [more];
      }
      var rest := Filter(rows[1..], where, db);
      if AllHold(where, db, r) {
        assert Filter(rows, where, db) == [r] + rest;
        assert ([r] + rest)[1..] == rest;
      } else {
        assert Filter(rows, where, db) == rest;
      }
    }
  }

  lemma FilterStep(r: Row, rest: seq<Row>, where: seq<Cond>, db: Database)
    ensures Filter([r] + rest, where, db) == (if AllHold(where, db, r) then [r] else []) + Filter(rest, where, db)
  {
    assert ([r] + rest)[1..] == rest;
  }

  lemma {:induction false} FilterConcat(s: seq<Row>, t: seq<Row>, where: seq<Cond>, db: Database)
    ensures Filter(s + t, where, db) == Filter(s, where, db) + Filter(t, where, db)
  {
    if s == [] {
      assert s + t == t;
    } else {
      var r, rest := s[0], s[1..];
      assert s == [r] + rest && s + t == [r] + (rest + t);
      FilterStep(r, rest, where, db);
      FilterStep(r, rest + t, where, db);
      FilterConcat(rest, t, where, db);
    }
  }

  lemma {:induction false} FilterAll(s: seq<Row>, where: seq<Cond>, db: Database, keep: bool)
    requires forall r :: r in s ==> (AllHold(where, db, r) <==> keep)
    ensures Filter(s, where, db) == if keep then s else []
  {
    if s != [] {
      FilterAll(s[1..], where, db, keep);
      assert s == [s[0]] + s[1..];
    }
  }

  /** Filtering commutes with rearranging. */
  lemma {:induction false} FilterCounts(s: seq<Row>, where: seq<Cond>, db: Database, r: Row)
    ensures multiset(Filter(s, where, db))[r] == if AllHold(where, db, r) then multiset(s)[r] else 0
  {
    if s != [] {
      var first, rest := s[0], s[1..];
      assert s == [first] + rest;
      FilterStep(first, rest, where, db);
      FilterCounts(rest, where, db, r);
    }
  }

  lemma FilterOfRearranged(s: seq<Row>, t: seq<Row>, where: seq<Cond>, db: Database)
    requires multiset(s) == multiset(t)
    ensures multiset(Filter(s, where, db)) == multiset(Filter(t, where, db))
  {
    forall r ensures multiset(Filter(s, where, db))[r] == multiset(Filter(t, where, db))[r] {
      FilterCounts(s, where, db, r);
      FilterCounts(t, where, db, r);
    }
  }

  /** The listed rows that the clause keeps are exactly those from position k on. */
  lemma ClauseKeepsRest(list: seq<Row>, order: seq<OrderTerm>, after: Cond, k: nat, db: Database)
    requires Ascending(order, list) && 0 < k <= |list|
    requires forall r :: r in list ==> (Holds(after, db, r) <==> Before(order, list[k - 1], r))
    ensures Filter(list, [after], db) == list[k..]
  {
    assert list == list[..k] + list[k..];
    FilterConcat(list[..k], list[k..], [after], db);
    forall r | r in list[..k] ensures !AllHold([after], db, r) {
      var i :| 0 <= i < k && list[i] == r;
      assert after in [after];
    }
    FilterAll(list[..k], [after], db, false);
    FilterAll(list[k..], [after], db, true);
  }

  /** What sorting does to rows with distinct identifiers. */
  lemma ListFacts(table: seq<Row>, db: Database, l: Listing)
    requires DistinctIds(table) && HasTiebreak(l.order)
    ensures var list := Full(table, db, l);
            && Ascending(l.order, list)
            && IsSorted(OrderBy(l.order), list)
            && Untied(OrderBy(l.order), list)
            && (forall r :: r in list <==> r in table && AllHold(l.where, db, r))
  {
    var listed := Filter(table, l.where, db);
    FilterMembers(table, l.where, db);
    FilterKeepsDistinct(table, l.where, db);
    SameElements(Full(table, db, l), listed);
    SortAscends(l.order, listed);
    OrderByIsPreorder(l.order);
    SortSorts(OrderBy(l.order), listed);
    DistinctRowsUntied(l.order, listed);
  }

  /** The rows selected after the k-th row of the list are the rest of the list, in order. */
  lemma RestAfterCursor(table: seq<Row>, db: Database, l: Listing, k: nat)
    requires Pageable(table, db, l)
    requires 0 < k <= |Full(table, db, l)|
    ensures var list := Full(table, db, l);
            Sort(OrderBy(l.order), Filter(table, l.where + [l.after(list[k - 1])], db)) == list[k..]
  {
    var list := Full(table, db, l);
    var after := l.after(list[k - 1]);
    var rest := Filter(table, l.where + [after], db);
    ListFacts(table, db, l);
    assert list[k - 1] in list;
    ClauseKeepsRest(list, l.order, after, k, db);
    FilterByMore(table, l.where, after, db);
    FilterOfRearranged(Filter(table, l.where, db), list, [after], db);
    SortedRest(OrderBy(l.order), list, k, rest, l.order);
  }

  lemma SortedRest(leq: (Row, Row) -> bool, list: seq<Row>, k: nat, rest: seq<Row>, order: seq<OrderTerm>)
    requires leq == OrderBy(order) && IsSorted(leq, list) && Untied(leq, list)
    requires k <= |list| && multiset(rest) == multiset(list[k..])
    ensures Sort(leq, rest) == list[k..]
  {
    OrderByIsPreorder(order);
    SortSorts(leq, rest);
    assert forall r :: r in list[k..] ==> r in list;
    SortedIsUnique(leq, list[k..], Sort(leq, rest));
  }

  /** Where a page starts in the list: at the top, or just after the row its cursor came from. */
  ghost predicate StartsAt(list: seq<Row>, cursor: Option<Row>, k: nat) {
    k <= |list| && match cursor
      case None => k == 0
      case Some(r) => k > 0 && list[k - 1] == r
  }

  lemma PageIsSlice(table: seq<Row>, db: Database, l: Listing, cursor: Option<Row>, k: nat, limit: nat)
    requires Pageable(table, db, l)
    requires StartsAt(Full(table, db, l), cursor, k)
    ensures var list := Full(table, db, l);
            Fetch(table, db, l, cursor, limit) == Page(Take(list[k..], limit), k + limit < |list|)
  {
    var list := Full(table, db, l);
    if cursor.None? {
      assert l.where + [] == l.where;
      assert list[0..] == list;
    } else {
      RestAfterCursor(table, db, l, k);
    }
    var found := Take(list[k..], limit + 1);
    assert Take(found, limit) == Take(list[k..], limit);
  }

  // ----- A whole traversal -----

  function CursorFor(pages: seq<Page>): Option<Row> {
    if pages == [] || pages[|pages| - 1].rows == [] then None
    else Some(pages[|pages| - 1].rows[|pages[|pages| - 1].rows| - 1])
  }

  /**
    Pages that a client holds after following cursors from the top of the list, choosing any
    limit of at least one row for each request and stopping at any moment.
  */
  ghost predicate Visit(table: seq<Row>, db: Database, l: Listing, limits: seq<nat>, pages: seq<Page>)
    requires |limits| == |pages|
  {
    pages == [] ||
    var n := |pages| - 1;
    && Visit(table, db, l, limits[..n], pages[..n])
    && limits[n] >= 1
    && (n > 0 ==> pages[n - 1].hasMore)
    && pages[n] == Fetch(table, db, l, CursorFor(pages[..n]), limits[n])
  }

  ghost predicate Finished(pages: seq<Page>) {
    pages != [] && !pages[|pages| - 1].hasMore
  }

  function Concat(pages: seq<Page>): seq<Row> {
    if pages == [] then [] else Concat(pages[..|pages| - 1]) + pages[|pages| - 1].rows
  }

  function Sum(limits: seq<nat>): nat {
    if limits == [] then 0 else Sum(limits[..|limits| - 1]) + limits[|limits| - 1]
  }

  /**
    The rows seen are the first k of the list, the last page says that there is more exactly
    when there is, and its cursor points at the k-th row.
  */
  ghost predicate Seen(list: seq<Row>, pages: seq<Page>, k: nat) {
    && |pages| <= k
    && Concat(pages) == Take(list, k)
    && (pages != [] ==>
          var more := pages[|pages| - 1].hasMore;
          && (more <==> k < |list|)
          && (more ==> StartsAt(list, CursorFor(pages), k)))
  }

  lemma TakeMore(list: seq<Row>, k: nat, limit: nat)
    requires k <= |list|
    ensures Take(list, k) + Take(list[k..], limit) == Take(list, k + limit)
  {
    if k + limit < |list| {
      assert list[k..][..limit] == list[k..k + limit];
    }
  }

  lemma SeenOneMore(list: seq<Row>, pages: seq<Page>, k: nat, limit: nat)
    requires pages != [] && Seen(list, pages[..|pages| - 1], k) && k <= |list| && limit >= 1
    requires pages[|pages| - 1] == Page(Take(list[k..], limit), k + limit < |list|)
    ensures Seen(list, pages, k + limit)
  {
    var page := pages[|pages| - 1];
    TakeMore(list, k, limit);
    if page.hasMore {
      assert page.rows[|page.rows| - 1] == list[k + limit - 1];
    }
  }

  /** Each page is the slice of the list that starts where its cursor points. */
  ghost predicate Slices(list: seq<Row>, limits: seq<nat>, pages: seq<Page>)
    requires |limits| == |pages|
  {
    pages == [] ||
    var n := |pages| - 1;
    && Slices(list, limits[..n], pages[..n])
    && limits[n] >= 1
    && (n > 0 ==> pages[n - 1].hasMore)
    && forall k: nat :: StartsAt(list, CursorFor(pages[..n]), k) ==>
         pages[n] == Page(Take(list[k..], limits[n]), k + limits[n] < |list|)
  }

  lemma {:induction false} VisitSlices(table: seq<Row>, db: Database, l: Listing, limits: seq<nat>, pages: seq<Page>)
    requires Pageable(table, db, l)
    requires |limits| == |pages| && Visit(table, db, l, limits, pages)
    ensures Slices(Full(table, db, l), limits, pages)
    decreases |pages|
  {
    if pages != [] {
      var n := |pages| - 1;
      var list, cursor := Full(table, db, l), CursorFor(pages[..n]);
      VisitSlices(table, db, l, limits[..n], pages[..n]);
      forall k: nat | StartsAt(list, cursor, k)
        ensures pages[n] == Page(Take(list[k..], limits[n]), k + limits[n] < |list|)
      {
        PageIsSlice(table, db, l, cursor, k, limits[n]);
      }
    }
  }

  lemma {:induction false} SlicesSeen(list: seq<Row>, limits: seq<nat>, pages: seq<Page>)
    requires |limits| == |pages| && Slices(list, limits, pages)
    ensures Seen(list, pages, Sum(limits))
    decreases |pages|
  {
    if pages != [] {
      var n := |pages| - 1;
      SlicesSeen(list, limits[..n], pages[..n]);
      var k := Sum(limits[..n]);
      assert n > 0 ==> pages[..n][n - 1] == pages[n - 1];
      assert StartsAt(list, CursorFor(pages[..n]), k);
      SeenOneMore(list, pages, k, limits[n]);
    }
  }

  /**
    At every moment of a traversal the rows seen are a prefix of the sorted, filtered list
    (no row lost, repeated or out of order), and the last page says that there is more
    exactly when there is.
  */
  lemma TraversalSoFar(table: seq<Row>, db: Database, l: Listing, limits: seq<nat>, pages: seq<Page>)
    requires Pageable(table, db, l)
    requires |limits| == |pages| && Visit(table, db, l, limits, pages)
    ensures Seen(Full(table, db, l), pages, Sum(limits))
  {
    VisitSlices(table, db, l, limits, pages);
    SlicesSeen(Full(table, db, l), limits, pages);
  }

  /** A traversal that was told there is no more has seen the whole list. */
  lemma FinishedTraversal(table: seq<Row>, db: Database, l: Listing, limits: seq<nat>, pages: seq<Page>)
    requires Pageable(table, db, l)
    requires |limits| == |pages| && Visit(table, db, l, limits, pages)
    requires Finished(pages)
    ensures Concat(pages) == Full(table, db, l)
    ensures multiset(Concat(pages)) == multiset(Filter(table, l.where, db))
  {
    TraversalSoFar(table, db, l, limits, pages);
  }

  /** Every traversal ends: it can ask for no more pages than the list has rows, or one if it is empty. */
  lemma TraversalEnds(table: seq<Row>, db: Database, l: Listing, limits: seq<nat>, pages: seq<Page>)
    requires Pageable(table, db, l)
    requires |limits| == |pages| && Visit(table, db, l, limits, pages)
    ensures |pages| <= 1 || |pages| <= |Full(table, db, l)|
    ensures |Full(table, db, l)| <= |table|
  {
    FilterMembers(table, l.where, db);
    SameElements(Full(table, db, l), Filter(table, l.where, db));
    if |pages| > 1 {
      var n := |pages| - 1;
      TraversalSoFar(table, db, l, limits[..n], pages[..n]);
      assert pages[n - 1].hasMore;
    }
  }

  /** The client asks for one page more. */
  lemma VisitOneMore(table: seq<Row>, db: Database, l: Listing, limit: nat, limits: seq<nat>, pages: seq<Page>)
    returns (allLimits: seq<nat>, allPages: seq<Page>)
    requires |limits| == |pages| && Visit(table, db, l, limits, pages)
    requires limit >= 1 && (pages == [] || pages[|pages| - 1].hasMore)
    ensures |allLimits| == |allPages| == |pages| + 1 && Visit(table, db, l, allLimits, allPages)
    ensures AllEqual(limits, limit) ==> AllEqual(allLimits, limit)
  {
    var page := Fetch(table, db, l, CursorFor(pages), limit);
    allLimits, allPages := limits + [limit], pages + [page];
    assert allPages[..|pages|] == pages && allLimits[..|limits|] == limits;
    assert allPages[|pages|] == page && allLimits[|limits|] == limit;
  }

  lemma PagesSoFar(table: seq<Row>, db: Database, l: Listing, limits: seq<nat>, pages: seq<Page>)
    requires Pageable(table, db, l)
    requires |limits| == |pages| && Visit(table, db, l, limits, pages)
    requires pages == [] || pages[|pages| - 1].hasMore
    ensures |pages| <= |Full(table, db, l)|
    ensures pages != [] ==> |pages| < |Full(table, db, l)|
  {
    TraversalSoFar(table, db, l, limits, pages);
  }

  /** Ask for m pages of a fixed size, or stop early at the end of the list. */
  lemma {:induction false} AskFor(table: seq<Row>, db: Database, l: Listing, limit: nat, m: nat)
    returns (limits: seq<nat>, pages: seq<Page>)
    requires limit >= 1
    ensures |limits| == |pages| && Visit(table, db, l, limits, pages)
    ensures AllEqual(limits, limit)
    ensures Finished(pages) || |pages| == m
  {
    if m == 0 {
      limits, pages := [], [];
    } else {
      limits, pages := AskFor(table, db, l, limit, m - 1);
      if !Finished(pages) {
        limits, pages := VisitOneMore(table, db, l, limit, limits, pages);
      }
    }
  }

  /** A traversal with pages of any fixed size comes to its end. */
  lemma TraversalCompletes(table: seq<Row>, db: Database, l: Listing, limit: nat)
    returns (limits: seq<nat>, pages: seq<Page>)
    requires Pageable(table, db, l) && limit >= 1
    ensures |limits| == |pages| && Visit(table, db, l, limits, pages)
    ensures AllEqual(limits, limit)
    ensures Finished(pages)
  {
    limits, pages := AskFor(table, db, l, limit, |Full(table, db, l)| + 1);
    if !Finished(pages) {
      PagesSoFar(table, db, l, limits, pages);
    }
  }

  /** Ordering by several terms is decided by the first one on which the rows differ. */
  lemma BeforeByTerm(term: OrderTerm, rest: seq<OrderTerm>, a: Row, b: Row)
    ensures Before([term] + rest, a, b) <==>
            var x, y := EvalExpr(term.e, a), EvalExpr(term.e, b);
            if x == y then Before(rest, a, b) else if term.descending then Less(y, x) else Less(x, y)
  {
    assert ([term] + rest)[1..] == rest;
    LessOrder(EvalExpr(term.e, a), EvalExpr(term.e, b), VNull);
    LessAsymmetric(EvalExpr(term.e, a), EvalExpr(term.e, b));
  }

  // ----- Traversals with pages of one size -----

  ghost predicate AllEqual(limits: seq<nat>, limit: nat) {
    forall k :: 0 <= k < |limits| ==> limits[k] == limit
  }

  lemma {:induction false} SumFixed(limits: seq<nat>, limit: nat)
    requires AllEqual(limits, limit)
    ensures Sum(limits) == |limits| * limit
  {
    if limits != [] {
      var k := |limits| - 1;
      SumFixed(limits[..k], limit);
      assert (k + 1) * limit == k * limit + limit;
    }
  }

  /** The cursor of page i, counted from zero, is the last row of the pages before it. */
  ghost predicate CursorsAt(list: seq<Row>, limits: seq<nat>, pages: seq<Page>)
    requires |limits| == |pages|
  {
    forall i: nat :: 0 < i < |pages| ==> CursorAt(list, limits, pages, i)
  }

  ghost predicate CursorAt(list: seq<Row>, limits: seq<nat>, pages: seq<Page>, i: nat)
    requires i < |limits| == |pages|
  {
    StartsAt(list, CursorFor(pages[..i]), Sum(limits[..i])) && 0 < Sum(limits[..i]) < |list|
  }

  lemma LastCursorAt(list: seq<Row>, limits: seq<nat>, pages: seq<Page>)
    requires |limits| == |pages| > 1 && Slices(list, limits, pages)
    ensures CursorAt(list, limits, pages, |pages| - 1)
  {
    var n := |pages| - 1;
    SlicesSeen(list, limits[..n], pages[..n]);
    assert pages[..n][n - 1] == pages[n - 1];
  }

  lemma {:induction false} AllCursors(list: seq<Row>, limits: seq<nat>, pages: seq<Page>)
    requires |limits| == |pages| && Slices(list, limits, pages)
    ensures CursorsAt(list, limits, pages)
    decreases |pages|
  {
    if |pages| > 1 {
      var n := |pages| - 1;
      var fewer, soFar := limits[..n], pages[..n];
      AllCursors(list, fewer, soFar);
      forall i: nat | 0 < i < |pages| ensures CursorAt(list, limits, pages, i) {
        if i < n {
          assert CursorAt(list, fewer, soFar, i);
          assert soFar[..i] == pages[..i] && fewer[..i] == limits[..i];
        } else {
          LastCursorAt(list, limits, pages);
        }
      }
    }
  }

  lemma {:induction false} SumGrows(limits: seq<nat>, i: nat, j: nat)
    requires i <= j <= |limits|
    ensures Sum(limits[..i]) <= Sum(limits[..j])
    decreases j
  {
    if i < j {
      SumGrows(limits, i, j - 1);
      assert limits[..j][..j - 1] == limits[..j - 1];
    }
  }

  /** A finished traversal used one page more than there are full pages before the last row. */
  lemma FixedPageCount(list: seq<Row>, limit: nat, limits: seq<nat>, pages: seq<Page>)
    requires limit >= 1 && Finished(pages)
    requires |limits| == |pages| && Slices(list, limits, pages) && AllEqual(limits, limit)
    ensures |pages| == if list == [] then 1 else 1 + (|list| - 1) / limit
  {
    var p := |pages| - 1;
    assert |list| <= |pages| * limit by {
      SlicesSeen(list, limits, pages);
      SumFixed(limits, limit);
    }
    assert p > 0 ==> p * limit < |list| by {
      SumFixed(limits[..p], limit);
      if p > 0 {
        LastCursorAt(list, limits, pages);
      }
    }
    PageCount(|list|, limit, |pages|);
  }

  /** The rows that the full pages before the last row hold. */
  function RowsBeforeLastPage(n: nat, limit: nat): nat
    requires limit >= 1
  {
    if n == 0 then 0 else (n - 1) / limit * limit
  }

  lemma FixedSumBeforeLast(list: seq<Row>, limit: nat, limits: seq<nat>, pages: seq<Page>)
    requires limit >= 1 && Finished(pages)
    requires |limits| == |pages| && Slices(list, limits, pages) && AllEqual(limits, limit)
    ensures Sum(limits[..|pages| - 1]) == RowsBeforeLastPage(|list|, limit)
  {
    FixedPageCount(list, limit, limits, pages);
    SumFixed(limits[..|pages| - 1], limit);
  }

  lemma FullLength(table: seq<Row>, db: Database, l: Listing)
    ensures |Full(table, db, l)| == |Filter(table, l.where, db)|
  {
    SameElements(Full(table, db, l), Filter(table, l.where, db));
  }

  lemma PageCount(n: nat, limit: nat, p: nat)
    requires limit >= 1 && p >= 1 && n <= p * limit
    requires p > 1 ==> (p - 1) * limit < n
    ensures p == if n == 0 then 1 else 1 + (n - 1) / limit
  {
    if n > 0 {
      DivisionBounds(n - 1, limit, p - 1);
    }
  }

  lemma DivisionBounds(n: nat, d: nat, q: nat)
    requires d >= 1 && q * d <= n < (q + 1) * d
    ensures n / d == q
  {
    var k := n / d;
    assert k * d <= n < (k + 1) * d;
    assert k < q ==> (k + 1) * d <= q * d;
    assert k > q ==> (q + 1) * d <= k * d;
  }
}
