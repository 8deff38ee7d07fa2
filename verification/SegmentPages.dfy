/** Evaluating a segment over the contacts: the count, the preview pages, and that they agree. */
module SegmentPages {
  import opened Wrappers
  import opened Sql
  import opened Keyset
  import opened SegmentCompiler
  import opened SegmentMeaning
  import opened SegmentGroups
  import Contacts
  import Sorting

  function BaseClauses(organizationId: int, condition: Option<Cond>): seq<Cond> {
    Appended([Cmp(Eq, Col(OrganizationId), VInt(organizationId)), IsNull(DeletedAt)], condition)
  }

  /** SegmentRepository.count_matching */
  function CountMatching(table: seq<Row>, db: Database, organizationId: int, condition: Option<Cond>): nat {
    |Filter(table, BaseClauses(organizationId, condition), db)|
  }

  function After(created: Value, id: Value): Cond {
    Or([Cmp(Lt, Col(CreatedAt), created),
        And([Cmp(Eq, Col(CreatedAt), created), Cmp(Lt, Col(Id), id)])])
  }

  function AfterContact(): Row -> Cond {
    row => After(Cell(row, CreatedAt), Cell(row, Id))
  }

  const NEWEST_FIRST: seq<OrderTerm> := [OrderTerm(Col(CreatedAt), true), OrderTerm(Col(Id), true)]

  function MatchingList(organizationId: int, condition: Option<Cond>): Listing {
    Listing(BaseClauses(organizationId, condition), NEWEST_FIRST, AfterContact())
  }

  /** SegmentRepository.paginate_matching; a cursor always holds a datetime and an id. */
  method PaginateMatching(table: seq<Row>, db: Database, organizationId: int, condition: Option<Cond>,
                          limit: nat, cursor: Option<(int, int)>)
    returns (rows: seq<Row>, hasMore: bool)
    ensures cursor.None? ==>
              Page(rows, hasMore) == Fetch(table, db, MatchingList(organizationId, condition), None, limit)
    ensures forall row ::
              cursor.Some? && Cell(row, CreatedAt) == VTime(cursor.value.0) && Cell(row, Id) == VInt(cursor.value.1) ==>
              Page(rows, hasMore) == Fetch(table, db, MatchingList(organizationId, condition), Some(row), limit)
  {
    var clauses := [Cmp(Eq, Col(OrganizationId), VInt(organizationId)), IsNull(DeletedAt)];
    if condition.Some? {
      clauses := clauses + [condition.value];
    }
    assert clauses == BaseClauses(organizationId, condition);
    ghost var base := clauses;
    if cursor.Some? {
      clauses := clauses + [After(VTime(cursor.value.0), VInt(cursor.value.1))];
    }
    assert cursor.None? ==> clauses == base + [];
    var found := Select(table, clauses, NEWEST_FIRST, limit + 1, db);
    rows, hasMore := Take(found, limit), |found| > limit;
  }

  lemma AfterExact(a: Row, b: Row, db: Database)
    requires Contacts.IsContact(a) && Contacts.IsContact(b)
    ensures Holds(AfterContact()(a), db, b) <==> Before(NEWEST_FIRST, a, b)
  {
    var created, id := OrderTerm(Col(CreatedAt), true), OrderTerm(Col(Id), true);
    assert [created] + [id] == NEWEST_FIRST && [id] + [] == [id];
    BeforeByTerm(created, [id], a, b);
    BeforeByTerm(id, [], a, b);
    TwoOf(Cmp(Eq, Col(CreatedAt), Cell(a, CreatedAt)), Cmp(Lt, Col(Id), Cell(a, Id)), db, b);
    TwoOf(Cmp(Lt, Col(CreatedAt), Cell(a, CreatedAt)),
          And([Cmp(Eq, Col(CreatedAt), Cell(a, CreatedAt)), Cmp(Lt, Col(Id), Cell(a, Id))]), db, b);
  }

  lemma MatchingPageable(table: seq<Row>, db: Database, organizationId: int, condition: Option<Cond>)
    requires DistinctIds(table) && forall r :: r in table ==> Contacts.IsContact(r)
    ensures Pageable(table, db, MatchingList(organizationId, condition))
  {
    var l := MatchingList(organizationId, condition);
    forall a, b | a in table && b in table
      ensures Holds(l.after(a), db, b) <==> Before(l.order, a, b)
    {
      AfterExact(a, b, db);
    }
    assert l.order[1].e == Col(Id);
  }

  function SumOfSizes(pages: seq<Page>): nat {
    if pages == [] then 0 else SumOfSizes(pages[..|pages| - 1]) + |pages[|pages| - 1].rows|
  }

  lemma {:induction false} SizesOfConcat(pages: seq<Page>)
    ensures |Concat(pages)| == SumOfSizes(pages)
  {
    if pages != [] {
      SizesOfConcat(pages[..|pages| - 1]);
    }
  }

  /** The organisation's live contacts that the condition is TRUE of. */
  ghost predicate Selected(db: Database, organizationId: int, condition: Option<Cond>, row: Row) {
    && Cell(row, OrganizationId) == VInt(organizationId)
    && Cell(row, DeletedAt) == VNull
    && (condition.Some? ==> Holds(condition.value, db, row))
  }

  lemma BaseClausesMean(db: Database, organizationId: int, condition: Option<Cond>, row: Row)
    ensures AllHold(BaseClauses(organizationId, condition), db, row) <==> Selected(db, organizationId, condition, row)
  {
    AppendedHolds([Cmp(Eq, Col(OrganizationId), VInt(organizationId)), IsNull(DeletedAt)], condition, db, row);
    LiveInOrganization(organizationId, db, row);
  }

  /** Newest first, and of two made at the same moment the one with the larger id. */
  ghost predicate NewestFirst(list: seq<Row>) {
    forall i, j :: 0 <= i < j < |list| ==>
      var a, b := list[i], list[j];
      Less(Cell(b, CreatedAt), Cell(a, CreatedAt))
      || (Cell(a, CreatedAt) == Cell(b, CreatedAt) && Less(Cell(b, Id), Cell(a, Id)))
  }

  lemma AscendingIsNewestFirst(list: seq<Row>)
    requires Ascending(NEWEST_FIRST, list)
    ensures NewestFirst(list)
  {
    forall i, j | 0 <= i < j < |list|
      ensures var a, b := list[i], list[j];
              Less(Cell(b, CreatedAt), Cell(a, CreatedAt))
              || (Cell(a, CreatedAt) == Cell(b, CreatedAt) && Less(Cell(b, Id), Cell(a, Id)))
    {
      var created, id := OrderTerm(Col(CreatedAt), true), OrderTerm(Col(Id), true);
      assert Before(NEWEST_FIRST, list[i], list[j]);
      assert [created] + [id] == NEWEST_FIRST && [id] + [] == [id];
      BeforeByTerm(created, [id], list[i], list[j]);
      BeforeByTerm(id, [], list[i], list[j]);
      LessOrder(Cell(list[i], Id), Cell(list[j], Id), VNull);
    }
  }

  lemma MatchingListed(table: seq<Row>, db: Database, organizationId: int, condition: Option<Cond>)
    requires DistinctIds(table) && forall r :: r in table ==> Contacts.IsContact(r)
    ensures var list := Full(table, db, MatchingList(organizationId, condition));
            && (forall r :: r in list <==> r in table && Selected(db, organizationId, condition, r))
            && |list| == CountMatching(table, db, organizationId, condition)
            && Ascending(NEWEST_FIRST, list)
  {
    var l := MatchingList(organizationId, condition);
    MatchingPageable(table, db, organizationId, condition);
    ListFacts(table, db, l);
    Sorting.SameElements(Full(table, db, l), Filter(table, l.where, db));
    forall r | r in table ensures AllHold(l.where, db, r) <==> Selected(db, organizationId, condition, r) {
      BaseClausesMean(db, organizationId, condition, r);
    }
  }

  lemma PrefixOfList(list: seq<Row>, pages: seq<Page>, k: nat)
    requires Seen(list, pages, k) && Ascending(NEWEST_FIRST, list)
    ensures SumOfSizes(pages) <= |list|
    ensures Finished(pages) ==> SumOfSizes(pages) == |list| && Concat(pages) == list
    ensures forall r :: r in Concat(pages) ==> r in list
    ensures Ascending(NEWEST_FIRST, Concat(pages))
  {
    SizesOfConcat(pages);
  }

  /**
    For any condition, the page sizes of a finished preview sum to the count, and every contact
    on a page, at any moment of the preview, is one the condition selects; none is shown twice.
  */
  lemma PreviewAgreesWithCount(table: seq<Row>, db: Database, organizationId: int, condition: Option<Cond>,
                               limits: seq<nat>, pages: seq<Page>)
    requires DistinctIds(table) && forall r :: r in table ==> Contacts.IsContact(r)
    requires |limits| == |pages| && Visit(table, db, MatchingList(organizationId, condition), limits, pages)
    ensures Finished(pages) ==> SumOfSizes(pages) == CountMatching(table, db, organizationId, condition)
    ensures SumOfSizes(pages) <= CountMatching(table, db, organizationId, condition)
    ensures forall r :: r in Concat(pages) ==> r in table && Selected(db, organizationId, condition, r)
    ensures Finished(pages) ==> forall r :: r in table && Selected(db, organizationId, condition, r) ==>
            r in Concat(pages)
    ensures Ascending(NEWEST_FIRST, Concat(pages)) && NewestFirst(Concat(pages))
  {
    var l := MatchingList(organizationId, condition);
    MatchingPageable(table, db, organizationId, condition);
    TraversalSoFar(table, db, l, limits, pages);
    MatchingListed(table, db, organizationId, condition);
    PrefixOfList(Full(table, db, l), pages, Sum(limits));
    AscendingIsNewestFirst(Concat(pages));
  }

  /** End to end: previewing a compiled segment shows exactly the contacts that the segment describes. */
  lemma SegmentPreview(table: seq<Row>, db: Database, ctx: Context, matchType: MatchType, rules: seq<Rule>,
                       limits: seq<nat>, pages: seq<Page>)
    requires DistinctIds(table) && forall r :: r in table ==> Contacts.IsContact(r)
    requires Constrained(db) && Compilable(ctx, rules, db.backslashEscapes)
    requires |limits| == |pages| && Compile(ctx, matchType, rules).Ok?
    requires Visit(table, db, MatchingList(ctx.organizationId, Compile(ctx, matchType, rules).value), limits, pages)
    requires Finished(pages)
    ensures forall r :: r in Concat(pages) <==>
              && r in table
              && Cell(r, OrganizationId) == VInt(ctx.organizationId) && Cell(r, DeletedAt) == VNull
              && (rules != [] ==> SegmentMatches(ctx, matchType, rules, db, r))
  {
    var condition := Compile(ctx, matchType, rules).value;
    PreviewAgreesWithCount(table, db, ctx.organizationId, condition, limits, pages);
    forall r | r in table && rules != []
      ensures condition.Some?
      ensures Holds(condition.value, db, r) <==> SegmentMatches(ctx, matchType, rules, db, r)
    {
      CompilationPreservesMeaning(ctx, matchType, rules, db, r);
    }
  }
}
