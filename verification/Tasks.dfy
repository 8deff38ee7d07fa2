/** The task list: sort keys, the loop-built keyset predicate, and whole traversals. */
module Tasks {
  import opened Wrappers
  import opened Sql
  import opened Keyset
  import opened TextSearch
  import Like

  const SORT_CREATED_AT := "created_at"
  const SORT_PRIORITY := "priority"
  const SORT_COMPLETED_AT := "completed_at"

  const PRIORITY_RANK: map<string, int> := map["low" := 0, "medium" := 1, "high" := 2, "critical" := 3]

  function PriorityRankExpr(): Expr {
    Case(Priority, PRIORITY_RANK, 0)
  }

  // ----- Filters -----

  datatype TaskFilter = TaskFilter(
    assigneeId: Option<int>,
    assignedById: Option<int>,
    contactId: Option<int>,
    conversationId: Option<int>,
    statuses: seq<string>,
    types: seq<string>,
    priorities: seq<string>,
    dueFrom: Option<int>,
    dueTo: Option<int>,
    q: string)

  function EqualId(col: Column, id: Option<int>): Option<Cond> {
    if id.None? then None else Some(Cmp(Eq, Col(col), VInt(id.value)))
  }

  function OneOf(col: Column, texts: seq<string>): Option<Cond> {
    if texts == [] then None else Some(InList(Col(col), Texts(texts)))
  }

  function Bound(op: CmpOp, time: Option<int>): Option<Cond> {
    if time.None? then None else Some(Cmp(op, Col(DueAt), VTime(time.value)))
  }

  function TitleOrDescription(q: string): Option<Cond> {
    if q == "" then None
    else Some(Or([LikePattern(Title, false, Like.Pattern(Like.Contains, q)),
                  LikePattern(Description, false, Like.Pattern(Like.Contains, q))]))
  }

  function Parts(f: TaskFilter): seq<Option<Cond>> {
    [EqualId(AssignedAgentId, f.assigneeId),
     EqualId(CreatedBy, f.assignedById),
     EqualId(ContactId, f.contactId),
     EqualId(ConversationId, f.conversationId),
     OneOf(Status, f.statuses),
     OneOf(TaskType, f.types),
     OneOf(Priority, f.priorities),
     Bound(Ge, f.dueFrom),
     Bound(Le, f.dueTo),
     TitleOrDescription(f.q)]
  }

  function AppendAll(cs: seq<Cond>, parts: seq<Option<Cond>>): seq<Cond>
    decreases |parts|
  {
    if parts == [] then cs else AppendAll(Appended(cs, parts[0]), parts[1..])
  }

  /** TaskRepository._apply_filters */
  function TaskFilters(organizationId: int, f: TaskFilter): seq<Cond> {
    AppendAll([Cmp(Eq, Col(OrganizationId), VInt(organizationId)), IsNull(DeletedAt)], Parts(f))
  }

  ghost predicate LinksWanted(row: Row, f: TaskFilter) {
    && (f.assigneeId.Some? ==> Cell(row, AssignedAgentId) == VInt(f.assigneeId.value))
    && (f.assignedById.Some? ==> Cell(row, CreatedBy) == VInt(f.assignedById.value))
    && (f.contactId.Some? ==> Cell(row, ContactId) == VInt(f.contactId.value))
    && (f.conversationId.Some? ==> Cell(row, ConversationId) == VInt(f.conversationId.value))
  }

  /** The text is in the title or in the description. */
  ghost predicate Found(row: Row, q: string, folds: bool) {
    CellFinds(Cell(row, Title), q, folds) || CellFinds(Cell(row, Description), q, folds)
  }

  ghost predicate TextsWanted(row: Row, f: TaskFilter, folds: bool) {
    && (f.statuses != [] ==> HoldsText(Cell(row, Status), f.statuses))
    && (f.types != [] ==> HoldsText(Cell(row, TaskType), f.types))
    && (f.priorities != [] ==> HoldsText(Cell(row, Priority), f.priorities))
    && (f.q != "" ==> Found(row, f.q, folds))
  }

  ghost predicate DueWanted(row: Row, f: TaskFilter) {
    && (f.dueFrom.Some? ==> Cell(row, DueAt) != VNull && !Less(Cell(row, DueAt), VTime(f.dueFrom.value)))
    && (f.dueTo.Some? ==> Cell(row, DueAt) != VNull && !Less(VTime(f.dueTo.value), Cell(row, DueAt)))
  }

  /** What the filters are for, said without SQL; `folds` says whether case counts in the text search. */
  ghost predicate WantedTask(row: Row, organizationId: int, f: TaskFilter, folds: bool) {
    && Cell(row, OrganizationId) == VInt(organizationId)
    && Cell(row, DeletedAt) == VNull
    && LinksWanted(row, f) && TextsWanted(row, f, folds) && DueWanted(row, f)
  }

  lemma {:induction false} AppendAllHolds(cs: seq<Cond>, parts: seq<Option<Cond>>, db: Database, row: Row)
    ensures AllHold(AppendAll(cs, parts), db, row) <==>
            AllHold(cs, db, row) && forall i :: 0 <= i < |parts| ==> OptionHolds(parts[i], db, row)
    decreases |parts|
  {
    if parts != [] {
      AppendedHolds(cs, parts[0], db, row);
      AppendAllHolds(Appended(cs, parts[0]), parts[1..], db, row);
      assert (forall i :: 0 <= i < |parts| ==> OptionHolds(parts[i], db, row)) <==>
             OptionHolds(parts[0], db, row) && forall i :: 0 <= i < |parts[1..]| ==>
               OptionHolds(parts[1..][i], db, row) by {
        assert forall i :: 0 <= i < |parts[1..]| ==> parts[1..][i] == parts[i + 1];
        assert forall i :: 0 < i < |parts| ==> parts[i] == parts[1..][i - 1];
      }
    }
  }

  lemma OneOfMeans(col: Column, texts: seq<string>, db: Database, row: Row)
    ensures OptionHolds(OneOf(col, texts), db, row) <==> (texts != [] ==> HoldsText(Cell(row, col), texts))
  {
    InTexts(texts, db, row, col);
  }

  lemma TextMeans(q: string, db: Database, row: Row)
    requires Like.Plain(Like.Contains, q, db.backslashEscapes)
    ensures OptionHolds(TitleOrDescription(q), db, row) <==>
            (q != "" ==> Found(row, q, db.likeFolds))
  {
    if q != "" {
      ColumnSearch(db, row, Title, q);
      ColumnSearch(db, row, Description, q);
      TwoOf(TitleOrDescription(q).value.cs[0], TitleOrDescription(q).value.cs[1], db, row);
    }
  }

  /** A task that the search finds although the text is nowhere in it. */
  lemma TaskSearchMisfires(db: Database, q: string) returns (row: Row)
    requires q != "" && !Like.Plain(Like.Contains, q, db.backslashEscapes)
    ensures OptionHolds(TitleOrDescription(q), db, row) && !Found(row, q, db.likeFolds)
  {
    var t := ColumnMisfire(q, db.backslashEscapes, db.likeFolds);
    row := map[Title := VStr(t)];
    TwoOf(TitleOrDescription(q).value.cs[0], TitleOrDescription(q).value.cs[1], db, row);
  }

  /** The task search finds the text, in every row, exactly when the text has no LIKE metacharacter. */
  lemma TaskSearchExact(db: Database, q: string)
    requires q != ""
    ensures Like.Plain(Like.Contains, q, db.backslashEscapes) <==>
            forall row: Row :: OptionHolds(TitleOrDescription(q), db, row) <==> Found(row, q, db.likeFolds)
  {
    if Like.Plain(Like.Contains, q, db.backslashEscapes) {
      forall row: Row ensures OptionHolds(TitleOrDescription(q), db, row) <==> Found(row, q, db.likeFolds) {
        TextMeans(q, db, row);
      }
    } else {
      var row := TaskSearchMisfires(db, q);
    }
  }

  lemma EqualIdMeans(col: Column, id: Option<int>, db: Database, row: Row)
    ensures OptionHolds(EqualId(col, id), db, row) <==> (id.Some? ==> Cell(row, col) == VInt(id.value))
  {}

  lemma DueMeans(from: Option<int>, to: Option<int>, db: Database, row: Row)
    ensures OptionHolds(Bound(Ge, from), db, row) <==>
            (from.Some? ==> Cell(row, DueAt) != VNull && !Less(Cell(row, DueAt), VTime(from.value)))
    ensures OptionHolds(Bound(Le, to), db, row) <==>
            (to.Some? ==> Cell(row, DueAt) != VNull && !Less(VTime(to.value), Cell(row, DueAt)))
  {}

  lemma TenHold(parts: seq<Option<Cond>>, db: Database, row: Row)
    requires |parts| == 10
    ensures (forall i :: 0 <= i < |parts| ==> OptionHolds(parts[i], db, row)) <==>
      && OptionHolds(parts[0], db, row) && OptionHolds(parts[1], db, row) && OptionHolds(parts[2], db, row)
      && OptionHolds(parts[3], db, row) && OptionHolds(parts[4], db, row) && OptionHolds(parts[5], db, row)
      && OptionHolds(parts[6], db, row) && OptionHolds(parts[7], db, row) && OptionHolds(parts[8], db, row)
      && OptionHolds(parts[9], db, row)
  {}

  lemma LinksMean(f: TaskFilter, db: Database, row: Row)
    ensures LinksWanted(row, f) <==>
            && OptionHolds(Parts(f)[0], db, row) && OptionHolds(Parts(f)[1], db, row)
            && OptionHolds(Parts(f)[2], db, row) && OptionHolds(Parts(f)[3], db, row)
  {
    EqualIdMeans(AssignedAgentId, f.assigneeId, db, row);
    EqualIdMeans(CreatedBy, f.assignedById, db, row);
    EqualIdMeans(ContactId, f.contactId, db, row);
    EqualIdMeans(ConversationId, f.conversationId, db, row);
  }

  lemma TextsMean(f: TaskFilter, db: Database, row: Row)
    requires Like.Plain(Like.Contains, f.q, db.backslashEscapes)
    ensures TextsWanted(row, f, db.likeFolds) <==>
            && OptionHolds(Parts(f)[4], db, row) && OptionHolds(Parts(f)[5], db, row)
            && OptionHolds(Parts(f)[6], db, row) && OptionHolds(Parts(f)[9], db, row)
  {
    OneOfMeans(Status, f.statuses, db, row);
    OneOfMeans(TaskType, f.types, db, row);
    OneOfMeans(Priority, f.priorities, db, row);
    TextMeans(f.q, db, row);
  }

  lemma PartsMean(f: TaskFilter, db: Database, row: Row)
    requires Like.Plain(Like.Contains, f.q, db.backslashEscapes)
    ensures (forall i :: 0 <= i < |Parts(f)| ==> OptionHolds(Parts(f)[i], db, row)) <==>
            LinksWanted(row, f) && TextsWanted(row, f, db.likeFolds) && DueWanted(row, f)
  {
    TenHold(Parts(f), db, row);
    LinksMean(f, db, row);
    TextsMean(f, db, row);
    DueMeans(f.dueFrom, f.dueTo, db, row);
  }

  /** The clauses select exactly the wanted tasks. */
  lemma TaskFiltersMean(db: Database, row: Row, organizationId: int, f: TaskFilter)
    requires Like.Plain(Like.Contains, f.q, db.backslashEscapes)
    ensures AllHold(TaskFilters(organizationId, f), db, row) <==> WantedTask(row, organizationId, f, db.likeFolds)
  {
    AppendAllHolds([Cmp(Eq, Col(OrganizationId), VInt(organizationId)), IsNull(DeletedAt)], Parts(f), db, row);
    LiveInOrganization(organizationId, db, row);
    PartsMean(f, db, row);
  }

  // ----- The keyset predicate -----

  datatype Key = Key(e: Expr, descending: bool)

  datatype Error = LengthMismatch | Refused(error: BuildError)

  function Strictly(key: Key): CmpOp {
    if key.descending then Lt else Gt
  }

  /** `key == value`, which is built as IS NULL when the value is None. */
  function Same(key: Key, value: Value): Cond {
    if value == VNull && key.e.Col? then IsNull(key.e.col) else Cmp(Eq, key.e, value)
  }

  /** Rows strictly after the given key values and id: by the first key, or tied on it and after by the others. */
  function After(keys: seq<Key>, values: seq<Value>, lastId: Value): Cond
    requires |keys| == |values|
  {
    if keys == [] then Cmp(Gt, Col(Id), lastId)
    else Or([Cmp(Strictly(keys[0]), keys[0].e, values[0]),
             And([Same(keys[0], values[0]), After(keys[1..], values[1..], lastId)])])
  }

  /** The values that meet a key when both lists are read from their ends. */
  function Paired(keys: seq<Key>, values: seq<Value>): seq<Value> {
    if |values| <= |keys| then values else values[|values| - |keys|..]
  }

  lemma SuffixStep(keys: seq<Key>, values: seq<Value>, lastId: Value, i: nat, j: nat)
    requires i < |keys| && j < |values| && |keys| - i == |values| - j
    ensures values[j] in Paired(keys, values)
    ensures After(keys[i..], values[j..], lastId) ==
            Or([Cmp(Strictly(keys[i]), keys[i].e, values[j]),
                And([Same(keys[i], values[j]), After(keys[i + 1..], values[j + 1..], lastId)])])
  {
    assert keys[i..][1..] == keys[i + 1..] && values[j..][1..] == values[j + 1..];
    assert Paired(keys, values)[j - (|values| - |Paired(keys, values)|)] == values[j];
  }

  lemma SuffixEnd(keys: seq<Key>, values: seq<Value>, i: nat, j: nat)
    requires i <= |keys| && j <= |values| && |keys| - i == |values| - j && (i == 0 || j == 0)
    ensures values[j..] == Paired(keys, values)
    ensures i == j ==> keys[i..] == keys && values[j..] == values
  {}

  /** One round of the loop: later by this key, or tied on it and later by what is inside. */
  method Wrap(key: Key, value: Value, inner: Cond, refusesNull: bool) returns (r: Result<Cond, Error>)
    ensures r == if refusesNull && value == VNull then Err(Refused(NullOperand))
                 else Ok(Or([Cmp(Strictly(key), key.e, value), And([Same(key, value), inner])]))
  {
    var strict := Built(Strictly(key), key.e, value, refusesNull);
    var same := Built(Eq, key.e, value, refusesNull);
    if strict.Err? || same.Err? {
      return Err(Refused(NullOperand));
    }
    return Ok(Or([strict.value, And([same.value, inner])]));
  }

  /** TaskRepository._keyset_after: built from the innermost tiebreak outward. */
  method KeysetAfter(keys: seq<Key>, values: seq<Value>, lastId: Value, refusesNull: bool)
    returns (r: Result<Cond, Error>)
    ensures r == if refusesNull && VNull in Paired(keys, values) then Err(Refused(NullOperand))
                 else if |keys| != |values| then Err(LengthMismatch)
                 else Ok(After(keys, values, lastId))
  {
    var predicate_ := Cmp(Gt, Col(Id), lastId);
    var i, j := |keys|, |values|;
    while i > 0 && j > 0
      invariant 0 <= i <= |keys| && 0 <= j <= |values|
      invariant |keys| - i == |values| - j
      invariant refusesNull ==> forall k :: j <= k < |values| ==> values[k] != VNull
      invariant predicate_ == After(keys[i..], values[j..], lastId)
    {
      i, j := i - 1, j - 1;
      SuffixStep(keys, values, lastId, i, j);
      var wrapped := Wrap(keys[i], values[j], predicate_, refusesNull);
      if wrapped.Err? {
        return wrapped;
      }
      predicate_ := wrapped.value;
    }
    SuffixEnd(keys, values, i, j);
    if i != j {
      return Err(LengthMismatch);
    }
    return Ok(predicate_);
  }

  function KeyOrder(keys: seq<Key>): seq<OrderTerm> {
    if keys == [] then [OrderTerm(Col(Id), false)]
    else [OrderTerm(keys[0].e, keys[0].descending)] + KeyOrder(keys[1..])
  }

  function KeyValues(keys: seq<Key>, row: Row): (vs: seq<Value>)
    ensures |vs| == |keys|
    ensures forall i :: 0 <= i < |keys| ==> vs[i] == EvalExpr(keys[i].e, row)
  {
    if keys == [] then [] else [EvalExpr(keys[0].e, row)] + KeyValues(keys[1..], row)
  }

  /** The loop-built predicate is TRUE of exactly the rows strictly later in the (keys, id) order. */
  lemma {:induction false} AfterExact(keys: seq<Key>, a: Row, b: Row, db: Database)
    requires Cell(a, Id) != VNull && Cell(b, Id) != VNull
    requires VNull !in KeyValues(keys, a) && VNull !in KeyValues(keys, b)
    ensures Holds(After(keys, KeyValues(keys, a), Cell(a, Id)), db, b) <==> Before(KeyOrder(keys), a, b)
  {
    if keys == [] {
      BeforeByTerm(OrderTerm(Col(Id), false), [], a, b);
      assert [OrderTerm(Col(Id), false)] + [] == KeyOrder(keys);
      LessAsymmetric(Cell(a, Id), Cell(b, Id));
    } else {
      var key := keys[0];
      var va, vb := KeyValues(keys, a), KeyValues(keys, b);
      assert va[0] != VNull && vb[0] != VNull;
      assert va[1..] == KeyValues(keys[1..], a) && vb[1..] == KeyValues(keys[1..], b);
      AfterExact(keys[1..], a, b, db);
      BeforeByTerm(OrderTerm(key.e, key.descending), KeyOrder(keys[1..]), a, b);
      var inner := After(keys[1..], va[1..], Cell(a, Id));
      TwoOf(Cmp(Eq, key.e, va[0]), inner, db, b);
      TwoOf(Cmp(Strictly(key), key.e, va[0]), And([Cmp(Eq, key.e, va[0]), inner]), db, b);
      LessAsymmetric(va[0], vb[0]);
      LessAsymmetric(vb[0], va[0]);
    }
  }

  // ----- One page -----

  function Keys(sort: string, descending: bool): seq<Key> {
    if sort == SORT_PRIORITY then [Key(PriorityRankExpr(), descending), Key(Col(DueAt), false)]
    else if sort == SORT_CREATED_AT then [Key(Col(CreatedAt), descending)]
    else if sort == SORT_COMPLETED_AT then [Key(Col(CompletedAt), descending)]
    else [Key(Col(DueAt), descending)]
  }

  /** TaskRepository.cursor_values */
  function CursorValues(task: Row, sort: string): seq<Value> {
    if sort == SORT_PRIORITY then [VInt(Rank(PRIORITY_RANK, 0, Cell(task, Priority))), Cell(task, DueAt)]
    else if sort == SORT_CREATED_AT then [Cell(task, CreatedAt)]
    else if sort == SORT_COMPLETED_AT then [Cell(task, CompletedAt)]
    else [Cell(task, DueAt)]
  }

  /** How urgent a task is: an unknown priority counts as low. */
  function Urgency(task: Row): nat {
    var p := Cell(task, Priority);
    if p == VStr("critical") then 3 else if p == VStr("high") then 2 else if p == VStr("medium") then 1 else 0
  }

  /** By the cells x and y in the asked direction, and on a tie as given. */
  predicate Stands(descending: bool, x: Value, y: Value, tie: bool) {
    if x == y then tie else if descending then Less(y, x) else Less(x, y)
  }

  /** What a sort means for two tasks: by the named cell in the asked direction, ties by ascending id. */
  predicate Precedes(sort: string, descending: bool, a: Row, b: Row) {
    var older := Less(Cell(a, Id), Cell(b, Id));
    if sort == "priority" then
      var sooner := Stands(false, Cell(a, DueAt), Cell(b, DueAt), older);
      if Urgency(a) == Urgency(b) then sooner
      else if descending then Urgency(a) > Urgency(b) else Urgency(a) < Urgency(b)
    else if sort == "created_at" then Stands(descending, Cell(a, CreatedAt), Cell(b, CreatedAt), older)
    else if sort == "completed_at" then Stands(descending, Cell(a, CompletedAt), Cell(b, CompletedAt), older)
    else Stands(descending, Cell(a, DueAt), Cell(b, DueAt), older)
  }

  lemma RankIsUrgency(task: Row)
    ensures EvalExpr(PriorityRankExpr(), task) == VInt(Urgency(task))
  {
    assert "low" != "medium" && "low" != "high" && "medium" != "high" && "critical" != "low";
    assert "critical" != "medium" && "critical" != "high";
  }

  lemma OneKeyOrder(key: Key, a: Row, b: Row)
    ensures Before(KeyOrder([key]), a, b) <==>
            Stands(key.descending, EvalExpr(key.e, a), EvalExpr(key.e, b), Less(Cell(a, Id), Cell(b, Id)))
  {
    var term, tie := OrderTerm(key.e, key.descending), OrderTerm(Col(Id), false);
    assert [key][1..] == [] && KeyOrder([key]) == [term] + [tie] && [tie] + [] == [tie];
    BeforeByTerm(term, [tie], a, b);
    BeforeByTerm(tie, [], a, b);
    LessOrder(Cell(a, Id), Cell(b, Id), VNull);
  }

  lemma TwoKeyOrder(first: Key, second: Key, a: Row, b: Row)
    ensures Before(KeyOrder([first, second]), a, b) <==>
            Stands(first.descending, EvalExpr(first.e, a), EvalExpr(first.e, b), Before(KeyOrder([second]), a, b))
  {
    assert [first, second][1..] == [second];
    BeforeByTerm(OrderTerm(first.e, first.descending), KeyOrder([second]), a, b);
  }

  /** The ORDER BY of a list is the order that its sort and direction stand for. */
  lemma OrderMeans(sort: string, descending: bool, a: Row, b: Row)
    ensures Before(KeyOrder(Keys(sort, descending)), a, b) <==> Precedes(sort, descending, a, b)
  {
    if sort == SORT_PRIORITY {
      TwoKeyOrder(Key(PriorityRankExpr(), descending), Key(Col(DueAt), false), a, b);
      OneKeyOrder(Key(Col(DueAt), false), a, b);
      RankIsUrgency(a);
      RankIsUrgency(b);
    } else {
      OneKeyOrder(Keys(sort, descending)[0], a, b);
    }
  }

  lemma CursorValuesAreKeys(task: Row, sort: string, descending: bool)
    ensures CursorValues(task, sort) == KeyValues(Keys(sort, descending), task)
  {
    var keys := Keys(sort, descending);
    assert |KeyValues(keys, task)| == |CursorValues(task, sort)|;
  }

  /** A NULL key has no place in a keyset comparison: that sort lists completed tasks only. */
  function CompletedOnly(sort: string): Option<Cond> {
    if sort == SORT_COMPLETED_AT then Some(IsNotNull(CompletedAt)) else None
  }

  function TaskWhere(organizationId: int, f: TaskFilter, sort: string): seq<Cond> {
    Appended(TaskFilters(organizationId, f), CompletedOnly(sort))
  }

  function AfterTask(sort: string, descending: bool): Row -> Cond {
    row => var keys := Keys(sort, descending); After(keys, KeyValues(keys, row), Cell(row, Id))
  }

  function TaskList(organizationId: int, f: TaskFilter, sort: string, descending: bool): Listing {
    Listing(TaskWhere(organizationId, f, sort), KeyOrder(Keys(sort, descending)), AfterTask(sort, descending))
  }

  method OrderTerms(keys: seq<Key>) returns (order: seq<OrderTerm>)
    ensures order == KeyOrder(keys)
  {
    order := [OrderTerm(Col(Id), false)];
    var i := |keys|;
    while i > 0
      invariant 0 <= i <= |keys|
      invariant order == KeyOrder(keys[i..])
    {
      i := i - 1;
      assert keys[i..][1..] == keys[i + 1..];
      order := [OrderTerm(keys[i].e, keys[i].descending)] + order;
    }
    assert keys[0..] == keys;
  }

  /** The cursor was taken from this task, which has a value for every key. */
  predicate CursorFrom(cursor: Option<(seq<Value>, Value)>, task: Row, sort: string) {
    cursor == Some((CursorValues(task, sort), Cell(task, Id))) && VNull !in CursorValues(task, sort)
  }

  /** TaskRepository.list_page */
  method ListPage(table: seq<Row>, db: Database, organizationId: int, f: TaskFilter, sort: string, descending: bool,
                  cursor: Option<(seq<Value>, Value)>, limit: nat, refusesNull: bool)
    returns (r: Result<Page, Error>)
    ensures cursor.None? ==> r == Ok(Fetch(table, db, TaskList(organizationId, f, sort, descending), None, limit))
    ensures forall task :: CursorFrom(cursor, task, sort) ==>
              r == Ok(Fetch(table, db, TaskList(organizationId, f, sort, descending), Some(task), limit))
    ensures cursor.Some? && |cursor.value.0| != |Keys(sort, descending)| ==> r.Err?
  {
    var clauses := TaskFilters(organizationId, f);
    var keys := Keys(sort, descending);
    if sort == SORT_COMPLETED_AT {
      clauses := clauses + [IsNotNull(CompletedAt)];
    }
    assert clauses == TaskWhere(organizationId, f, sort);
    if cursor.Some? {
      var after := KeysetAfter(keys, cursor.value.0, cursor.value.1, refusesNull);
      if after.Err? {
        forall task | CursorFrom(cursor, task, sort) ensures false {
          CursorValuesAreKeys(task, sort, descending);
        }
        return Err(after.error);
      }
      forall task | CursorFrom(cursor, task, sort) ensures after.value == AfterTask(sort, descending)(task) {
        CursorValuesAreKeys(task, sort, descending);
      }
      clauses := clauses + [after.value];
    } else {
      assert clauses + [] == clauses;
    }
    var order := OrderTerms(keys);
    var rows := Select(table, clauses, order, limit + 1, db);
    r := Ok(PageOf(rows, limit));
  }

  // ----- Whole traversals -----

  /** A row of the tasks table: the columns that are NOT NULL are there. */
  predicate IsTask(row: Row) {
    Cell(row, Id).VInt? && Cell(row, CreatedAt).VTime? && Cell(row, DueAt).VTime?
  }

  lemma {:induction false} KeyOrderEndsWithId(keys: seq<Key>)
    ensures OrderTerm(Col(Id), false) in KeyOrder(keys)
  {
    if keys != [] {
      KeyOrderEndsWithId(keys[1..]);
    }
  }

  lemma KeysPresent(row: Row, db: Database, organizationId: int, f: TaskFilter, sort: string, descending: bool)
    requires IsTask(row) && AllHold(TaskWhere(organizationId, f, sort), db, row)
    ensures VNull !in KeyValues(Keys(sort, descending), row)
  {
    AppendedHolds(TaskFilters(organizationId, f), CompletedOnly(sort), db, row);
    CursorValuesAreKeys(row, sort, descending);
  }

  lemma TasksPageable(table: seq<Row>, db: Database, organizationId: int, f: TaskFilter, sort: string, descending: bool)
    requires DistinctIds(table) && forall r :: r in table ==> IsTask(r)
    ensures Pageable(table, db, TaskList(organizationId, f, sort, descending))
  {
    var l := TaskList(organizationId, f, sort, descending);
    forall a, b | a in table && b in table && AllHold(l.where, db, a) && AllHold(l.where, db, b)
      ensures Holds(l.after(a), db, b) <==> Before(l.order, a, b)
    {
      KeysPresent(a, db, organizationId, f, sort, descending);
      KeysPresent(b, db, organizationId, f, sort, descending);
      AfterExact(Keys(sort, descending), a, b, db);
    }
    KeyOrderEndsWithId(Keys(sort, descending));
  }

  /** A wanted task, and a completed one if the list is sorted by completion. */
  ghost predicate Listed(row: Row, organizationId: int, f: TaskFilter, sort: string, folds: bool) {
    WantedTask(row, organizationId, f, folds) && (sort == "completed_at" ==> Cell(row, CompletedAt) != VNull)
  }

  lemma TaskWhereMeans(db: Database, row: Row, organizationId: int, f: TaskFilter, sort: string)
    ensures AllHold(TaskWhere(organizationId, f, sort), db, row) && sort == SORT_COMPLETED_AT ==>
            Cell(row, CompletedAt) != VNull
    ensures Like.Plain(Like.Contains, f.q, db.backslashEscapes) ==>
            (AllHold(TaskWhere(organizationId, f, sort), db, row) <==>
              Listed(row, organizationId, f, sort, db.likeFolds))
  {
    AppendedHolds(TaskFilters(organizationId, f), CompletedOnly(sort), db, row);
    if Like.Plain(Like.Contains, f.q, db.backslashEscapes) {
      TaskFiltersMean(db, row, organizationId, f);
    }
  }

  /** A row is in the list when it is a wanted task, and a completed one if that is the sort. */
  lemma TaskIsListed(table: seq<Row>, db: Database, organizationId: int, f: TaskFilter, sort: string,
                     descending: bool, r: Row)
    ensures var listed := r in Full(table, db, TaskList(organizationId, f, sort, descending));
            && (listed && sort == "completed_at" ==> Cell(r, CompletedAt) != VNull)
            && (Like.Plain(Like.Contains, f.q, db.backslashEscapes) ==>
                  (listed <==> r in table && Listed(r, organizationId, f, sort, db.likeFolds)))
  {
    FullMembers(table, db, TaskList(organizationId, f, sort, descending), r);
    TaskWhereMeans(db, r, organizationId, f, sort);
  }

  /** Each task of the list precedes exactly the later ones. */
  ghost predicate InOrder(list: seq<Row>, sort: string, descending: bool) {
    forall i, j :: 0 <= i < |list| && 0 <= j < |list| ==> (Precedes(sort, descending, list[i], list[j]) <==> i < j)
  }

  lemma TasksOrdered(table: seq<Row>, db: Database, organizationId: int, f: TaskFilter, sort: string, descending: bool)
    requires DistinctIds(table)
    ensures InOrder(Full(table, db, TaskList(organizationId, f, sort, descending)), sort, descending)
  {
    var l := TaskList(organizationId, f, sort, descending);
    var list := Full(table, db, l);
    KeyOrderEndsWithId(Keys(sort, descending));
    ListFacts(table, db, l);
    forall i, j | 0 <= i < |list| && 0 <= j < |list|
      ensures Precedes(sort, descending, list[i], list[j]) <==> i < j
    {
      OrderMeans(sort, descending, list[i], list[j]);
    }
  }

  /**
    Following the cursors shows, at any moment, a prefix of one fixed list, with has_more true
    exactly while something is missing, in the order that the sort and the direction ask for.
  */
  lemma TaskTraversal(table: seq<Row>, db: Database, organizationId: int, f: TaskFilter, sort: string,
                      descending: bool, limits: seq<nat>, pages: seq<Page>)
    requires DistinctIds(table) && forall r :: r in table ==> IsTask(r)
    requires |limits| == |pages|
    requires Visit(table, db, TaskList(organizationId, f, sort, descending), limits, pages)
    ensures var list := Full(table, db, TaskList(organizationId, f, sort, descending));
            && Seen(list, pages, Sum(limits))
            && (Finished(pages) ==> Concat(pages) == list)
            && InOrder(list, sort, descending)
  {
    TasksOrdered(table, db, organizationId, f, sort, descending);
    var l := TaskList(organizationId, f, sort, descending);
    TasksPageable(table, db, organizationId, f, sort, descending);
    TraversalSoFar(table, db, l, limits, pages);
    if Finished(pages) {
      FinishedTraversal(table, db, l, limits, pages);
    }
  }
}
