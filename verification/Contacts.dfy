/** The contact list: filters, the nullable keyset with NULLs last, and whole traversals. */
module Contacts {
  import opened Wrappers
  import opened Sql
  import opened Keyset
  import opened TextSearch
  import opened Blanks
  import Like
  import Sorting

  // ----- Sort names -----

  datatype SortName = ByCreatedAt | ByFullName | ByLastInboundAt

  const SORT_COLUMNS: map<string, SortName> :=
    map["created_at" := ByCreatedAt, "full_name" := ByFullName, "last_inbound_at" := ByLastInboundAt]

  function SortColumn(name: SortName): Column {
    match name
    case ByCreatedAt => CreatedAt
    case ByFullName => FullName
    case ByLastInboundAt => LastInboundAt
  }

  predicate Nullable(name: SortName) {
    name != ByCreatedAt
  }

  datatype Error = CannotSortBy | Refused(error: BuildError)

  function ParseSort(sort: Option<string>): Result<(SortName, bool), Error> {
    NamedSort(Strip(if sort.None? || sort.value == "" then "-created_at" else sort.value))
  }

  function NamedSort(raw: string): Result<(SortName, bool), Error> {
    var descending := "-" <= raw;
    var name := if descending then raw[1..] else raw;
    if name in SORT_COLUMNS then Ok((SORT_COLUMNS[name], descending)) else Err(CannotSortBy)
  }

  /** The query parameter that asks for a sort. */
  function SortText(name: SortName, descending: bool): string {
    match name
    case ByCreatedAt => if descending then "-created_at" else "created_at"
    case ByFullName => if descending then "-full_name" else "full_name"
    case ByLastInboundAt => if descending then "-last_inbound_at" else "last_inbound_at"
  }

  lemma TextIsTrimmed(name: SortName, descending: bool)
    ensures Trimmed(SortText(name, descending)) && SortText(name, descending) != ""
  {
    var text := SortText(name, descending);
    assert text[0] in "-cfl" && text[|text| - 1] in "te";
    SpaceIsBlank(text[0]);
    SpaceIsBlank(text[|text| - 1]);
  }

  lemma TextOfSort(name: SortName, descending: bool)
    ensures NamedSort(SortText(name, descending)) == Ok((name, descending))
  {
    var text, plain := SortText(name, descending), SortText(name, false);
    assert plain in SORT_COLUMNS && SORT_COLUMNS[plain] == name by {
      assert "full_name" != "created_at" && "last_inbound_at" != "created_at" && "full_name" != "last_inbound_at";
    }
    assert plain[0] in "cfl";
    if descending {
      assert text[0] == '-' && text[1..] == plain;
    }
  }

  lemma ListedText(text: string)
    requires text in SORT_COLUMNS
    ensures text == SortText(SORT_COLUMNS[text], false)
  {}

  /** A stripped sort is accepted exactly when it is the text of one. */
  lemma NamedSortExact(raw: string, name: SortName, descending: bool)
    ensures NamedSort(raw) == Ok((name, descending)) <==> raw == SortText(name, descending)
  {
    TextOfSort(name, descending);
    if NamedSort(raw) == Ok((name, descending)) {
      if descending {
        ListedText(raw[1..]);
        assert raw == "-" + raw[1..];
        assert SortText(name, true) == "-" + SortText(name, false);
      } else {
        ListedText(raw);
      }
    }
  }

  lemma ParseDefaultSort()
    ensures ParseSort(None) == ParseSort(Some("")) == Ok((ByCreatedAt, true))
  {
    TextOfSort(ByCreatedAt, true);
    TextIsTrimmed(ByCreatedAt, true);
    StripAround("", "-created_at", "");
    assert "" + "-created_at" + "" == "-created_at" == SortText(ByCreatedAt, true);
  }

  /** Blanks at its ends aside, a sort is accepted exactly when it is the text of one; nothing means newest first. */
  lemma ParseSortExact(sort: string, name: SortName, descending: bool)
    ensures sort != "" ==>
              (ParseSort(Some(sort)) == Ok((name, descending)) <==> Bare(sort, SortText(name, descending)))
    ensures ParseSort(None) == ParseSort(Some("")) == Ok((ByCreatedAt, true))
  {
    NamedSortExact(Strip(sort), name, descending);
    StripExact(sort, SortText(name, descending));
    ParseDefaultSort();
  }

  /** Every sort may be asked for with any blanks around its text. */
  lemma ParseSortRoundTrip(a: string, b: string, name: SortName, descending: bool)
    requires AllBlank(a) && AllBlank(b)
    ensures ParseSort(Some(a + SortText(name, descending) + b)) == Ok((name, descending))
  {
    TextOfSort(name, descending);
    TextIsTrimmed(name, descending);
    StripAround(a, SortText(name, descending), b);
    assert a + SortText(name, descending) + b != "";
  }

  // ----- Filters -----

  datatype ContactFilter = ContactFilter(
    q: Option<string>,
    optInStatus: seq<string>,
    source: Option<string>,
    isActiveOnWa: Option<bool>,
    createdFrom: Option<int>,
    createdTo: Option<int>)

  function SearchClause(text: string): Cond {
    var like := Like.Pattern(Like.Contains, Like.Lower(text));
    Or([LikePattern(FullName, true, like),
        LikePattern(Email, true, like),
        LikePattern(PhoneE164, false, Like.Pattern(Like.Contains, text)),
        LikePattern(WaId, false, Like.Pattern(Like.Contains, text))])
  }

  function SearchPart(q: Option<string>): Option<Cond> {
    if q.None? || q.value == "" then None else Some(SearchClause(Strip(q.value)))
  }

  function StatusPart(statuses: seq<string>): Option<Cond> {
    if statuses == [] then None else Some(InList(Col(OptInStatus), Texts(statuses)))
  }

  function SourcePart(source: Option<string>): Option<Cond> {
    if source.None? || source.value == "" then None else Some(Cmp(Eq, Col(Source), VStr(source.value)))
  }

  function ActivePart(active: Option<bool>): Option<Cond> {
    if active.None? then None else Some(IsBool(IsActiveOnWa, active.value))
  }

  function CreatedPart(op: CmpOp, time: Option<int>): Option<Cond> {
    if time.None? then None else Some(Cmp(op, Col(CreatedAt), VTime(time.value)))
  }

  function ContactFilters(organizationId: int, f: ContactFilter): seq<Cond> {
    var c0 := [Cmp(Eq, Col(OrganizationId), VInt(organizationId)), IsNull(DeletedAt)];
    var c1 := Appended(c0, SearchPart(f.q));
    var c2 := Appended(c1, StatusPart(f.optInStatus));
    var c3 := Appended(c2, SourcePart(f.source));
    var c4 := Appended(c3, ActivePart(f.isActiveOnWa));
    var c5 := Appended(c4, CreatedPart(Ge, f.createdFrom));
    Appended(c5, CreatedPart(Le, f.createdTo))
  }

  method BuildFilters(organizationId: int, f: ContactFilter) returns (clauses: seq<Cond>)
    ensures clauses == ContactFilters(organizationId, f)
  {
    clauses := [Cmp(Eq, Col(OrganizationId), VInt(organizationId)), IsNull(DeletedAt)];
    if f.q.Some? && f.q.value != "" {
      clauses := clauses + [SearchClause(Strip(f.q.value))];
    }
    if f.optInStatus != [] {
      clauses := clauses + [InList(Col(OptInStatus), Texts(f.optInStatus))];
    }
    if f.source.Some? && f.source.value != "" {
      clauses := clauses + [Cmp(Eq, Col(Source), VStr(f.source.value))];
    }
    if f.isActiveOnWa.Some? {
      clauses := clauses + [IsBool(IsActiveOnWa, f.isActiveOnWa.value)];
    }
    if f.createdFrom.Some? {
      clauses := clauses + [Cmp(Ge, Col(CreatedAt), VTime(f.createdFrom.value))];
    }
    if f.createdTo.Some? {
      clauses := clauses + [Cmp(Le, Col(CreatedAt), VTime(f.createdTo.value))];
    }
  }

  /**
    What the filters are for, said without SQL: a row with no value in a filtered column is left out.
    `folds` says whether case counts in a search of the numbers.
  */
  ghost predicate Wanted(row: Row, organizationId: int, f: ContactFilter, folds: bool) {
    && Cell(row, OrganizationId) == VInt(organizationId)
    && Cell(row, DeletedAt) == VNull
    && (f.q.Some? && f.q.value != "" ==> exists text :: Bare(f.q.value, text) && Found(row, text, folds))
    && (f.optInStatus != [] ==> HoldsText(Cell(row, OptInStatus), f.optInStatus))
    && (f.source.Some? && f.source.value != "" ==> Cell(row, Source) == VStr(f.source.value))
    && (f.isActiveOnWa.Some? ==> Cell(row, IsActiveOnWa) == VBool(f.isActiveOnWa.value))
    && (f.createdFrom.Some? ==>
      Cell(row, CreatedAt) != VNull && !Less(Cell(row, CreatedAt), VTime(f.createdFrom.value)))
    && (f.createdTo.Some? ==> Cell(row, CreatedAt) != VNull && !Less(VTime(f.createdTo.value), Cell(row, CreatedAt)))
  }

  /** The text searched for, without the blanks around it, has no LIKE metacharacter. */
  ghost predicate PlainSearch(f: ContactFilter, escapes: bool) {
    f.q.Some? ==> forall text :: Bare(f.q.value, text) ==> Like.Plain(Like.Contains, text, escapes)
  }

  /** The text is somewhere in the name, the address, the number or the WhatsApp id. */
  ghost predicate Found(row: Row, text: string, folds: bool) {
    || CellFinds(Cell(row, FullName), text, true)
    || CellFinds(Cell(row, Email), text, true)
    || CellFinds(Cell(row, PhoneE164), text, folds)
    || CellFinds(Cell(row, WaId), text, folds)
  }

  lemma SearchHolds(db: Database, row: Row, text: string)
    ensures var cs := SearchClause(text).cs;
            Holds(SearchClause(text), db, row) <==>
            Holds(cs[0], db, row) || Holds(cs[1], db, row) || Holds(cs[2], db, row) || Holds(cs[3], db, row)
  {
    var cs := SearchClause(text).cs;
    OrHolds(cs, db, row);
    assert cs[0] in cs && cs[1] in cs && cs[2] in cs && cs[3] in cs;
    assert forall c :: c in cs ==> c == cs[0] || c == cs[1] || c == cs[2] || c == cs[3];
  }

  lemma SearchMeans(db: Database, row: Row, text: string)
    requires Like.Plain(Like.Contains, text, db.backslashEscapes)
    ensures Holds(SearchClause(text), db, row) <==> Found(row, text, db.likeFolds)
  {
    SearchHolds(db, row, text);
    FoldedColumnSearch(db, row, FullName, text);
    FoldedColumnSearch(db, row, Email, text);
    ColumnSearch(db, row, PhoneE164, text);
    ColumnSearch(db, row, WaId, text);
  }

  /** A contact that the search box finds although the text is nowhere in it. */
  lemma SearchMisfires(db: Database, text: string) returns (row: Row)
    requires !Like.Plain(Like.Contains, text, db.backslashEscapes)
    ensures Holds(SearchClause(text), db, row) && !Found(row, text, db.likeFolds)
  {
    var t := Like.FoldedMisfire(Like.Contains, text, db.backslashEscapes);
    row := map[FullName := VStr(t)];
    FoldedSearch(t, text, db.backslashEscapes);
    LikeHolds(FullName, Like.Pattern(Like.Contains, Like.Lower(text)), db, row);
    SearchHolds(db, row, text);
  }

  /** The search box finds the text, in every row, exactly when the text has no LIKE metacharacter. */
  lemma SearchExact(db: Database, text: string)
    ensures Like.Plain(Like.Contains, text, db.backslashEscapes) <==>
            forall row: Row :: Holds(SearchClause(text), db, row) <==> Found(row, text, db.likeFolds)
  {
    if Like.Plain(Like.Contains, text, db.backslashEscapes) {
      forall row: Row ensures Holds(SearchClause(text), db, row) <==> Found(row, text, db.likeFolds) {
        SearchMeans(db, row, text);
      }
    } else {
      var row := SearchMisfires(db, text);
    }
  }

  /** The conjunction, part by part. */
  lemma SixAppended(c0: seq<Cond>, p1: Option<Cond>, p2: Option<Cond>, p3: Option<Cond>, p4: Option<Cond>,
                    p5: Option<Cond>, p6: Option<Cond>, db: Database, row: Row)
    ensures AllHold(Appended(Appended(Appended(Appended(Appended(Appended(c0, p1), p2), p3), p4), p5), p6),
                    db, row) <==>
            && AllHold(c0, db, row) && OptionHolds(p1, db, row) && OptionHolds(p2, db, row) && OptionHolds(p3, db, row)
            && OptionHolds(p4, db, row) && OptionHolds(p5, db, row) && OptionHolds(p6, db, row)
  {
    var c1 := Appended(c0, p1);
    var c2 := Appended(c1, p2);
    var c3 := Appended(c2, p3);
    var c4 := Appended(c3, p4);
    AppendedHolds(c0, p1, db, row);
    AppendedHolds(c1, p2, db, row);
    AppendedHolds(c2, p3, db, row);
    AppendedHolds(c3, p4, db, row);
    AppendedHolds(c4, p5, db, row);
    AppendedHolds(Appended(c4, p5), p6, db, row);
  }

  lemma FilterParts(db: Database, row: Row, organizationId: int, f: ContactFilter)
    ensures AllHold(ContactFilters(organizationId, f), db, row) <==>
            && Cell(row, OrganizationId) == VInt(organizationId)
            && Cell(row, DeletedAt) == VNull
            && OptionHolds(SearchPart(f.q), db, row)
            && OptionHolds(StatusPart(f.optInStatus), db, row)
            && OptionHolds(SourcePart(f.source), db, row)
            && OptionHolds(ActivePart(f.isActiveOnWa), db, row)
            && OptionHolds(CreatedPart(Ge, f.createdFrom), db, row)
            && OptionHolds(CreatedPart(Le, f.createdTo), db, row)
  {
    LiveInOrganization(organizationId, db, row);
    SixAppended([Cmp(Eq, Col(OrganizationId), VInt(organizationId)), IsNull(DeletedAt)],
                SearchPart(f.q), StatusPart(f.optInStatus), SourcePart(f.source), ActivePart(f.isActiveOnWa),
                CreatedPart(Ge, f.createdFrom), CreatedPart(Le, f.createdTo), db, row);
  }

  lemma SearchPartMeans(db: Database, row: Row, q: Option<string>)
    requires q.Some? ==> forall text :: Bare(q.value, text) ==> Like.Plain(Like.Contains, text, db.backslashEscapes)
    ensures OptionHolds(SearchPart(q), db, row) <==>
            (q.Some? && q.value != "" ==> exists text :: Bare(q.value, text) && Found(row, text, db.likeFolds))
  {
    if q.Some? && q.value != "" {
      var stripped := Strip(q.value);
      StripExact(q.value, stripped);
      SearchMeans(db, row, stripped);
      forall text | Bare(q.value, text) ensures text == stripped {
        StripExact(q.value, text);
      }
    }
  }

  /** Blanks around the text searched for make no difference to what is selected. */
  lemma BlanksAroundSearch(db: Database, row: Row, organizationId: int, f: ContactFilter,
                           a: string, text: string, b: string)
    requires AllBlank(a) && AllBlank(b) && Trimmed(text) && text != ""
    ensures AllHold(ContactFilters(organizationId, f.(q := Some(a + text + b))), db, row) <==>
            AllHold(ContactFilters(organizationId, f.(q := Some(text))), db, row)
  {
    StripAround(a, text, b);
    StripAround("", text, "");
    assert "" + text + "" == text;
  }

  lemma StatusPartMeans(db: Database, row: Row, statuses: seq<string>)
    ensures OptionHolds(StatusPart(statuses), db, row) <==>
            (statuses != [] ==> HoldsText(Cell(row, OptInStatus), statuses))
  {
    InTexts(statuses, db, row, OptInStatus);
  }

  lemma CellPartsMean(db: Database, row: Row, f: ContactFilter)
    ensures OptionHolds(SourcePart(f.source), db, row) <==>
            (f.source.Some? && f.source.value != "" ==> Cell(row, Source) == VStr(f.source.value))
    ensures OptionHolds(ActivePart(f.isActiveOnWa), db, row) <==>
            (f.isActiveOnWa.Some? ==> Cell(row, IsActiveOnWa) == VBool(f.isActiveOnWa.value))
    ensures OptionHolds(CreatedPart(Ge, f.createdFrom), db, row) <==>
            (f.createdFrom.Some? ==>
              Cell(row, CreatedAt) != VNull && !Less(Cell(row, CreatedAt), VTime(f.createdFrom.value)))
    ensures OptionHolds(CreatedPart(Le, f.createdTo), db, row) <==>
            (f.createdTo.Some? ==>
              Cell(row, CreatedAt) != VNull && !Less(VTime(f.createdTo.value), Cell(row, CreatedAt)))
  {}

  /** Under three-valued logic the clauses select exactly the wanted rows. */
  lemma FiltersMean(db: Database, row: Row, organizationId: int, f: ContactFilter)
    requires PlainSearch(f, db.backslashEscapes)
    ensures AllHold(ContactFilters(organizationId, f), db, row) <==> Wanted(row, organizationId, f, db.likeFolds)
  {
    FilterParts(db, row, organizationId, f);
    SearchPartMeans(db, row, f.q);
    StatusPartMeans(db, row, f.optInStatus);
    CellPartsMean(db, row, f);
  }

  // ----- One page -----

  /** What a client hands back: the sort value and id of the last row, and whether the value was NULL. */
  datatype Cursor = Cursor(value: Value, lastId: Value, valueIsNull: bool)

  function CursorOf(row: Row, name: SortName): Cursor {
    var v := Cell(row, SortColumn(name));
    Cursor(v, Cell(row, Id), v == VNull)
  }

  function ContactOrder(name: SortName, descending: bool): seq<OrderTerm> {
    var col := SortColumn(name);
    (if Nullable(name) then [OrderTerm(NullFlag(col), false)] else [])
    + [OrderTerm(Col(col), descending), OrderTerm(Col(Id), descending)]
  }

  /**
    The clause for the rows after a cursor. The comparison with the cursor's value is built
    before it is known whether it will be used, also when that value is None.
  */
  function KeysetClause(name: SortName, descending: bool, cursor: Cursor, refusesNull: bool): Result<Cond, BuildError> {
    var col := SortColumn(name);
    var beyond := if descending then Lt else Gt;
    var before := Built(beyond, Col(col), cursor.value, refusesNull);
    var same := Built(Eq, Col(col), cursor.value, refusesNull);
    var idBeyond := Cmp(beyond, Col(Id), cursor.lastId);
    if before.Err? then Err(before.error)
    else if same.Err? then Err(same.error)
    else
      var tie := And([same.value, idBeyond]);
      if !Nullable(name) then Ok(Or([before.value, tie]))
      else if cursor.valueIsNull then Ok(And([IsNull(col), idBeyond]))
      else Ok(Or([before.value, tie, IsNull(col)]))
  }

  function AfterRow(name: SortName, descending: bool): Row -> Cond {
    row => KeysetClause(name, descending, CursorOf(row, name), false).value
  }

  function ContactList(organizationId: int, f: ContactFilter, name: SortName, descending: bool): Listing {
    Listing(ContactFilters(organizationId, f), ContactOrder(name, descending), AfterRow(name, descending))
  }

  /** A builder that refuses ordering comparisons with None refuses exactly the NULL cursors. */
  lemma ClauseRefused(name: SortName, descending: bool, row: Row, refusesNull: bool)
    ensures var clause := KeysetClause(name, descending, CursorOf(row, name), refusesNull);
            if refusesNull && Cell(row, SortColumn(name)) == VNull then clause == Err(NullOperand)
            else clause == Ok(AfterRow(name, descending)(row))
  {}

  /** The clause built for a cursor, whichever row the cursor came from. */
  lemma ClauseForCursor(name: SortName, descending: bool, cursor: Cursor, refusesNull: bool)
    ensures forall row :: cursor == CursorOf(row, name) ==>
              var clause := KeysetClause(name, descending, cursor, refusesNull);
              if refusesNull && Cell(row, SortColumn(name)) == VNull then clause == Err(NullOperand)
              else clause == Ok(AfterRow(name, descending)(row))
  {
    forall row | cursor == CursorOf(row, name)
      ensures var clause := KeysetClause(name, descending, cursor, refusesNull);
              if refusesNull && Cell(row, SortColumn(name)) == VNull then clause == Err(NullOperand)
              else clause == Ok(AfterRow(name, descending)(row))
    {
      ClauseRefused(name, descending, row, refusesNull);
    }
  }

  method OrderTerms(name: SortName, descending: bool) returns (order: seq<OrderTerm>)
    ensures order == ContactOrder(name, descending)
  {
    var column := SortColumn(name);
    order := [];
    if Nullable(name) {
      order := order + [OrderTerm(NullFlag(column), false)];
    }
    order := order + [OrderTerm(Col(column), descending)];
    order := order + [OrderTerm(Col(Id), descending)];
  }

  /** ContactRepository.paginate */
  method Paginate(table: seq<Row>, db: Database, organizationId: int, limit: nat, sort: Option<string>,
                  cursor: Option<Cursor>, f: ContactFilter, refusesNull: bool)
    returns (r: Result<(Page, SortName), Error>)
    ensures ParseSort(sort).Err? ==> r == Err(ParseSort(sort).error)
    ensures ParseSort(sort).Ok? ==>
              var (name, descending) := ParseSort(sort).value;
              && (cursor.None? ==>
                    r == Ok((Fetch(table, db, ContactList(organizationId, f, name, descending), None, limit), name)))
              && forall row :: cursor == Some(CursorOf(row, name)) ==>
                    if refusesNull && Cell(row, SortColumn(name)) == VNull then r == Err(Refused(NullOperand))
                    else
                      var list := ContactList(organizationId, f, name, descending);
                      r == Ok((Fetch(table, db, list, Some(row), limit), name))
  {
    var parsed := ParseSort(sort);
    if parsed.Err? {
      return Err(parsed.error);
    }
    var (name, descending) := parsed.value;
    var clauses := BuildFilters(organizationId, f);
    ghost var filters := clauses;
    if cursor.Some? {
      ClauseForCursor(name, descending, cursor.value, refusesNull);
      var clause := KeysetClause(name, descending, cursor.value, refusesNull);
      if clause.Err? {
        return Err(Refused(clause.error));
      }
      clauses := clauses + [clause.value];
    }
    var order := OrderTerms(name, descending);
    var rows := Select(table, clauses, order, limit + 1, db);
    assert cursor.None? ==> clauses == filters + [];
    r := Ok((PageOf(rows, limit), name));
  }

  // ----- The keyset clause is exact -----

  lemma ThreeTerms(a: OrderTerm, b: OrderTerm, c: OrderTerm)
    ensures [a] + [b, c] == [a, b, c] && [b] + [c] == [b, c] && [c] + [] == [c]
  {}

  /** A row of the contacts table: the columns that are NOT NULL are there. */
  predicate IsContact(row: Row) {
    Cell(row, Id).VInt? && Cell(row, CreatedAt).VTime?
  }

  /** Ordered by x and y, and on a tie by the identifiers i and j, all in one direction. */
  predicate Stands(descending: bool, x: Value, y: Value, i: Value, j: Value) {
    if x != y then (if descending then Less(y, x) else Less(x, y))
    else if descending then Less(j, i) else Less(i, j)
  }

  /** What a sort means for two contacts: by the named cell, a missing value after every present one, ties by id. */
  predicate Precedes(name: SortName, descending: bool, a: Row, b: Row) {
    var i, j := Cell(a, Id), Cell(b, Id);
    match name
    case ByCreatedAt => Stands(descending, Cell(a, CreatedAt), Cell(b, CreatedAt), i, j)
    case ByFullName =>
      (Cell(a, FullName) != VNull && Cell(b, FullName) == VNull)
      || ((Cell(a, FullName) == VNull ==> Cell(b, FullName) == VNull)
          && Stands(descending, Cell(a, FullName), Cell(b, FullName), i, j))
    case ByLastInboundAt =>
      (Cell(a, LastInboundAt) != VNull && Cell(b, LastInboundAt) == VNull)
      || ((Cell(a, LastInboundAt) == VNull ==> Cell(b, LastInboundAt) == VNull)
          && Stands(descending, Cell(a, LastInboundAt), Cell(b, LastInboundAt), i, j))
  }

  lemma OrderByTerms(col: Column, nullable: bool, descending: bool, a: Row, b: Row)
    ensures var terms := [OrderTerm(Col(col), descending), OrderTerm(Col(Id), descending)];
            Before((if nullable then [OrderTerm(NullFlag(col), false)] else []) + terms, a, b) <==>
            var x, y := Cell(a, col), Cell(b, col);
            if nullable && (x == VNull) != (y == VNull) then y == VNull
            else Stands(descending, x, y, Cell(a, Id), Cell(b, Id))
  {
    var flag, key := OrderTerm(NullFlag(col), false), OrderTerm(Col(col), descending);
    var tie := OrderTerm(Col(Id), descending);
    ThreeTerms(flag, key, tie);
    BeforeByTerm(flag, [key, tie], a, b);
    BeforeByTerm(key, [tie], a, b);
    BeforeByTerm(tie, [], a, b);
    assert [flag] + [key, tie] == [flag, key, tie] && [] + [key, tie] == [key, tie];
    LessOrder(Cell(a, Id), Cell(b, Id), VNull);
  }

  lemma OrderMeans(name: SortName, descending: bool, a: Row, b: Row)
    ensures Before(ContactOrder(name, descending), a, b) <==> Precedes(name, descending, a, b)
  {
    OrderByTerms(SortColumn(name), Nullable(name), descending, a, b);
  }

  /** Under three-valued logic the clause is TRUE of exactly the rows that stand after the cursor row. */
  lemma ClauseExact(name: SortName, descending: bool, a: Row, b: Row, db: Database)
    requires IsContact(a) && IsContact(b)
    ensures Holds(AfterRow(name, descending)(a), db, b) <==> Before(ContactOrder(name, descending), a, b)
  {
    var col := SortColumn(name);
    var beyond := if descending then Lt else Gt;
    var x := Cell(a, col);
    var before := Built(beyond, Col(col), x, false).value;
    var same := Built(Eq, Col(col), x, false).value;
    var idBeyond := Cmp(beyond, Col(Id), Cell(a, Id));
    OrderMeans(name, descending, a, b);
    TwoOf(same, idBeyond, db, b);
    TwoOf(before, And([same, idBeyond]), db, b);
    ThreeOf(before, And([same, idBeyond]), IsNull(col), db, b);
    TwoOf(IsNull(col), idBeyond, db, b);
    LessOrder(x, Cell(b, col), VNull);
    LessAsymmetric(x, Cell(b, col));
  }

  lemma ContactsPageable(table: seq<Row>, db: Database, organizationId: int, f: ContactFilter, name: SortName,
                         descending: bool)
    requires DistinctIds(table) && forall r :: r in table ==> IsContact(r)
    ensures Pageable(table, db, ContactList(organizationId, f, name, descending))
  {
    var l := ContactList(organizationId, f, name, descending);
    forall a, b | a in table && b in table
      ensures Holds(l.after(a), db, b) <==> Before(l.order, a, b)
    {
      ClauseExact(name, descending, a, b, db);
    }
    assert l.order[|l.order| - 1].e == Col(Id);
  }

  // ----- Whole traversals -----

  ghost predicate NullsLast(list: seq<Row>, col: Column) {
    forall i, j :: 0 <= i < j < |list| && Cell(list[i], col) == VNull ==> Cell(list[j], col) == VNull
  }

  /** Each contact of the list precedes exactly the later ones. */
  ghost predicate InOrder(list: seq<Row>, name: SortName, descending: bool) {
    forall i, j :: 0 <= i < |list| && 0 <= j < |list| ==> (Precedes(name, descending, list[i], list[j]) <==> i < j)
  }

  lemma ContactsOrdered(table: seq<Row>, db: Database, organizationId: int, f: ContactFilter, name: SortName,
                        descending: bool)
    requires DistinctIds(table)
    ensures InOrder(Full(table, db, ContactList(organizationId, f, name, descending)), name, descending)
  {
    var l := ContactList(organizationId, f, name, descending);
    var list := Full(table, db, l);
    assert l.order[|l.order| - 1].e == Col(Id);
    ListFacts(table, db, l);
    forall i, j | 0 <= i < |list| && 0 <= j < |list|
      ensures Precedes(name, descending, list[i], list[j]) <==> i < j
    {
      OrderMeans(name, descending, list[i], list[j]);
    }
  }

  /** ContactRepository.count */
  function Count(table: seq<Row>, db: Database, organizationId: int, f: ContactFilter): nat {
    |Filter(table, ContactFilters(organizationId, f), db)|
  }

  /**
    Following the cursors shows, at any moment, a prefix of one fixed list, with has_more true
    exactly while something is missing. The list holds the wanted rows and no other, NULL sort
    values last.
  */
  lemma ContactTraversal(table: seq<Row>, db: Database, organizationId: int, f: ContactFilter, name: SortName,
                         descending: bool, limits: seq<nat>, pages: seq<Page>)
    requires DistinctIds(table) && forall r :: r in table ==> IsContact(r)
    requires |limits| == |pages|
    requires Visit(table, db, ContactList(organizationId, f, name, descending), limits, pages)
    ensures var list := Full(table, db, ContactList(organizationId, f, name, descending));
            && Seen(list, pages, Sum(limits))
            && (Finished(pages) ==> Concat(pages) == list)
            && (PlainSearch(f, db.backslashEscapes) ==>
                  forall r :: r in list <==> r in table && Wanted(r, organizationId, f, db.likeFolds))
            && |list| == Count(table, db, organizationId, f)
            && InOrder(list, name, descending)
            && (Nullable(name) ==> NullsLast(list, SortColumn(name)))
  {
    var l := ContactList(organizationId, f, name, descending);
    ContactsOrdered(table, db, organizationId, f, name, descending);
    ContactsPageable(table, db, organizationId, f, name, descending);
    TraversalSoFar(table, db, l, limits, pages);
    if Finished(pages) {
      FinishedTraversal(table, db, l, limits, pages);
    }
    ListFacts(table, db, l);
    forall r | r in table && PlainSearch(f, db.backslashEscapes)
      ensures AllHold(l.where, db, r) <==> Wanted(r, organizationId, f, db.likeFolds)
    {
      FiltersMean(db, r, organizationId, f);
    }
    Sorting.SameElements(Full(table, db, l), Filter(table, l.where, db));
    ListedNullsLast(table, db, l, name, descending);
  }

  lemma ListedNullsLast(table: seq<Row>, db: Database, l: Listing, name: SortName, descending: bool)
    requires DistinctIds(table) && HasTiebreak(l.order) && l.order == ContactOrder(name, descending)
    ensures Nullable(name) ==> NullsLast(Full(table, db, l), SortColumn(name))
  {
    var list := Full(table, db, l);
    ListFacts(table, db, l);
    forall i, j | Nullable(name) && 0 <= i < j < |list| && Cell(list[i], SortColumn(name)) == VNull
      ensures Cell(list[j], SortColumn(name)) == VNull
    {
      assert Before(l.order, list[i], list[j]);
      OrderMeans(name, descending, list[i], list[j]);
    }
  }

  // ----- A builder that refuses `column < None` -----

  /** No page of the traversal was asked for with a NULL cursor value. */
  ghost predicate NeverRefused(pages: seq<Page>, col: Column) {
    forall i :: 0 < i < |pages| ==>
      var cursor := CursorFor(pages[..i]);
      cursor.Some? && Cell(cursor.value, col) != VNull
  }

  /** How many listed contacts have a value in the sort column. */
  function CountNamed(table: seq<Row>, db: Database, organizationId: int, f: ContactFilter, name: SortName): nat {
    |Filter(table, ContactFilters(organizationId, f) + [IsNotNull(SortColumn(name))], db)|
  }

  lemma {:induction false} NullsStart(list: seq<Row>, col: Column, db: Database)
    requires NullsLast(list, col)
    ensures var m := |Filter(list, [IsNotNull(col)], db)|;
            m <= |list| && forall i :: 0 <= i < |list| ==> (Cell(list[i], col) == VNull <==> i >= m)
  {
    if list != [] {
      var rest := list[1..];
      forall i, j | 0 <= i < j < |rest| && Cell(rest[i], col) == VNull ensures Cell(rest[j], col) == VNull {
        assert rest[i] == list[i + 1] && rest[j] == list[j + 1];
      }
      NullsStart(rest, col, db);
      assert AllHold([IsNotNull(col)], db, list[0]) <==> Holds(IsNotNull(col), db, list[0]);
      var m := |Filter(rest, [IsNotNull(col)], db)|;
      forall i | 0 <= i < |list|
        ensures Cell(list[i], col) == VNull <==> i >= |Filter(list, [IsNotNull(col)], db)|
      {
        if i > 0 {
          assert list[i] == rest[i - 1];
        }
        if Cell(list[0], col) == VNull && rest != [] {
          assert Cell(rest[0], col) == VNull;
        }
      }
    }
  }

  lemma NamedPrefix(table: seq<Row>, db: Database, organizationId: int, f: ContactFilter, name: SortName,
                    descending: bool)
    requires DistinctIds(table) && forall r :: r in table ==> IsContact(r)
    requires Nullable(name)
    ensures var list := Full(table, db, ContactList(organizationId, f, name, descending));
            var named := CountNamed(table, db, organizationId, f, name);
            && named <= |list|
            && forall i :: 0 <= i < |list| ==> (Cell(list[i], SortColumn(name)) == VNull <==> i >= named)
  {
    var l, col := ContactList(organizationId, f, name, descending), SortColumn(name);
    var list := Full(table, db, l);
    ContactsPageable(table, db, organizationId, f, name, descending);
    ListedNullsLast(table, db, l, name, descending);
    NullsStart(list, col, db);
    FilterByMore(table, l.where, IsNotNull(col), db);
    FilterOfRearranged(Filter(table, l.where, db), list, [IsNotNull(col)], db);
    Sorting.SameElements(Filter(list, [IsNotNull(col)], db), Filter(Filter(table, l.where, db), [IsNotNull(col)], db));
  }

  lemma RefusalArithmetic(list: seq<Row>, col: Column, named: nat, limits: seq<nat>, pages: seq<Page>)
    requires pages != [] && |limits| == |pages| && CursorsAt(list, limits, pages)
    requires forall i :: 0 <= i < |list| ==> (Cell(list[i], col) == VNull <==> i >= named)
    ensures NeverRefused(pages, col) <==> Sum(limits[..|pages| - 1]) <= named
  {
    forall i: nat | 0 < i < |pages|
      ensures CursorFor(pages[..i]).Some?
      ensures Cell(CursorFor(pages[..i]).value, col) != VNull <==> Sum(limits[..i]) <= named
    {
      assert CursorAt(list, limits, pages, i);
    }
    var p := |pages| - 1;
    if Sum(limits[..p]) <= named {
      forall i: nat | 0 < i < |pages| ensures Sum(limits[..i]) <= named {
        SumGrows(limits, i, p);
      }
    } else {
      assert limits[..0] == [];
      assert CursorFor(pages[..p]).Some?;
    }
  }

  /**
    When the statement builder refuses an ordering comparison with None, a traversal with pages of
    any sizes gets through exactly when no page but the last one ends among the NULL rows: the rows
    with a value must fill every page but the last.
  */
  lemma RefusingTraversal(table: seq<Row>, db: Database, organizationId: int, f: ContactFilter, name: SortName,
                          descending: bool, limits: seq<nat>, pages: seq<Page>)
    requires DistinctIds(table) && forall r :: r in table ==> IsContact(r)
    requires Nullable(name) && pages != []
    requires |limits| == |pages|
    requires Visit(table, db, ContactList(organizationId, f, name, descending), limits, pages)
    ensures NeverRefused(pages, SortColumn(name)) <==>
            Sum(limits[..|pages| - 1]) <= CountNamed(table, db, organizationId, f, name)
  {
    var l := ContactList(organizationId, f, name, descending);
    var list := Full(table, db, l);
    ContactsPageable(table, db, organizationId, f, name, descending);
    VisitSlices(table, db, l, limits, pages);
    AllCursors(list, limits, pages);
    NamedPrefix(table, db, organizationId, f, name, descending);
    RefusalArithmetic(list, SortColumn(name), CountNamed(table, db, organizationId, f, name), limits, pages);
  }

  /** With pages of one size: the rows with a value fill every full page before the last row. */
  lemma RefusingFixedPages(table: seq<Row>, db: Database, organizationId: int, f: ContactFilter, name: SortName,
                           descending: bool, limit: nat, limits: seq<nat>, pages: seq<Page>)
    requires DistinctIds(table) && forall r :: r in table ==> IsContact(r)
    requires Nullable(name) && limit >= 1
    requires |limits| == |pages| && AllEqual(limits, limit)
    requires Visit(table, db, ContactList(organizationId, f, name, descending), limits, pages) && Finished(pages)
    ensures NeverRefused(pages, SortColumn(name)) <==>
            RowsBeforeLastPage(Count(table, db, organizationId, f), limit)
            <= CountNamed(table, db, organizationId, f, name)
  {
    var l := ContactList(organizationId, f, name, descending);
    assert Sum(limits[..|pages| - 1]) == RowsBeforeLastPage(|Full(table, db, l)|, limit) by {
      ContactsPageable(table, db, organizationId, f, name, descending);
      VisitSlices(table, db, l, limits, pages);
      FixedSumBeforeLast(Full(table, db, l), limit, limits, pages);
    }
    assert |Full(table, db, l)| == Count(table, db, organizationId, f) by {
      FullLength(table, db, l);
    }
    RefusingTraversal(table, db, organizationId, f, name, descending, limits, pages);
  }

  lemma NamedOnly(where: seq<Cond>, db: Database, row: Row)
    requires Cell(row, FullName) == VNull
    ensures !AllHold(where + [IsNotNull(FullName)], db, row)
  {
    assert IsNotNull(FullName) in where + [IsNotNull(FullName)];
    assert !Holds(IsNotNull(FullName), db, row);
  }

  /**
    The smallest such failure: two contacts without a name, listed by name one at a time. The
    second page is refused, because the condition fails: 0 named rows do not fill the first page.
  */
  lemma UnnamedPairRefused(a: Row, b: Row, db: Database, organizationId: int, f: ContactFilter, descending: bool)
    requires IsContact(a) && IsContact(b) && Cell(a, Id) != Cell(b, Id)
    requires Cell(a, FullName) == VNull && Cell(b, FullName) == VNull
    requires AllHold(ContactFilters(organizationId, f), db, a) && AllHold(ContactFilters(organizationId, f), db, b)
    ensures Count([a, b], db, organizationId, f) == 2
    ensures CountNamed([a, b], db, organizationId, f, ByFullName) == 0
    ensures KeysetClause(ByFullName, descending, CursorOf(a, ByFullName), true) == Err(NullOperand)
  {
    var where := ContactFilters(organizationId, f);
    FilterAll([a, b], where, db, true);
    NamedOnly(where, db, a);
    NamedOnly(where, db, b);
    FilterAll([a, b], where + [IsNotNull(FullName)], db, false);
    ClauseRefused(ByFullName, descending, a, true);
  }
}
