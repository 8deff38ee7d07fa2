/**
  What a segment rule says about a contact, in two-valued terms, and the proof that its compiled
  condition is TRUE of a contact exactly when the contact does what the rule says.
*/
module SegmentMeaning {
  import opened Wrappers
  import opened Sql
  import opened AttributeTypes
  import opened SegmentCompiler
  import Like

  // ----- The direct reading of a rule -----

  /** The value that a literal stands for; a text is parsed where numbers or times are kept. */
  function Denoted(p: Parsers, reading: Reading, value: Json): Value {
    match value
    case JNull => VNull
    case JBool(b) => VBool(b)
    case JNum(r) => VNum(r)
    case JTime(t) => VTime(t)
    case JList(_) => VNull
    case JStr(s) =>
      if reading == AsField(TypeDt) || (reading.AsAttribute? && reading.spec.dataType == TDatetime) then
        (match p.isoTime(s) case Some(t) => VTime(t) case None => VNull)
      else if reading.AsAttribute? && reading.spec.dataType == TNumber then
        (match p.decimal(s) case Some(r) => VNum(r) case None => VNull)
      else VStr(s)
  }

  /** What the compiler compares with is the value that the literal stands for. */
  lemma ReadDenoted(p: Parsers, reading: Reading, value: Json)
    requires Read(p, reading, value).Ok?
    ensures Read(p, reading, value).value == Denoted(p, reading, value)
    ensures LiteralReads(p, reading, value, Denoted(p, reading, value))
  {
    LiteralExact(p, reading, value);
  }

  /** The text that a search rule looks for is in the value, case aside. */
  ghost predicate TextFound(p: Parsers, kind: Like.Search, v: Value, value: Json) {
    v.VStr?
    && match value
       case JStr(text) => Like.Finds(kind, Like.Lower(v.s), Like.Lower(text))
       case _ => Like.Finds(kind, Like.Lower(v.s), Like.Lower(p.formatted(value)))
  }

  ghost predicate OneOf(p: Parsers, reading: Reading, v: Value, value: Json) {
    value.JList? && exists item :: item in value.items && v == Denoted(p, reading, item)
  }

  /** A present value is after (or before) a present literal. */
  predicate Ordered(operator: Operator, v: Value, literal: Value) {
    literal != VNull
    && match operator
       case OpGt => Less(literal, v)
       case OpGte => !Less(v, literal)
       case OpLt => Less(v, literal)
       case OpLte => !Less(literal, v)
       case _ => false
  }

  /** A present value passes the operator's test against the literal. */
  ghost predicate Passes(p: Parsers, reading: Reading, operator: Operator, v: Value, value: Json) {
    match operator
    case OpEq => v == Denoted(p, reading, value)
    case OpNe => v != Denoted(p, reading, value)
    case OpContains => TextFound(p, Like.Contains, v, value)
    case OpStarts => TextFound(p, Like.Starts, v, value)
    case OpEnds => TextFound(p, Like.Ends, v, value)
    case OpIn => OneOf(p, reading, v, value)
    case OpNin => !OneOf(p, reading, v, value)
    case OpBetween =>
      && value.JList? && |value.items| == 2
      && Ordered(OpGte, v, Denoted(p, reading, value.items[0]))
      && Ordered(OpLte, v, Denoted(p, reading, value.items[1]))
    case _ => Ordered(operator, v, Denoted(p, reading, value))
  }

  /** A column rule: a contact with no value fails every test, also `ne` and `nin`; `eq null` asks for no value. */
  ghost predicate FieldMatches(ctx: Context, t: FieldType, operator: Operator, v: Value, value: Json) {
    match operator
    case OpExists => (v != VNull) == (value == JBool(true))
    case OpEq => v == Denoted(ctx.parsers, AsField(t), value)
    case _ => v != VNull && Passes(ctx.parsers, AsField(t), operator, v, value)
  }

  /** An attribute rule: `ne` and `nin` also hold of a contact that has no value at all; `eq null` asks for no value. */
  ghost predicate AttributeMatches(ctx: Context, spec: AttributeSpec, operator: Operator, v: Value, value: Json) {
    var reading := AsAttribute(spec);
    match operator
    case OpExists => (v != VNull) == (value == JBool(true))
    case OpEq => v == Denoted(ctx.parsers, reading, value)
    case OpNe => v != Denoted(ctx.parsers, reading, value)
    case OpNin => v == VNull || !OneOf(ctx.parsers, reading, v, value)
    case _ => v != VNull && Passes(ctx.parsers, reading, operator, v, value)
  }

  /** The contact's value of a custom attribute: at most one row holds it. */
  function ValueOf(rows: seq<Row>, contactId: Value, attributeId: int, column: Column): Value {
    if rows == [] then VNull
    else if Cell(rows[0], ContactId) == contactId && Cell(rows[0], AttributeId) == VInt(attributeId) then
      Cell(rows[0], column)
    else ValueOf(rows[1..], contactId, attributeId, column)
  }

  /** The contact carries a live tag of the organisation with this name. */
  ghost predicate HasTag(db: Database, contactId: Value, organizationId: int, name: Value) {
    exists link, tag :: link in db.contactTags && tag in db.tags && Tagged(link, tag, contactId, organizationId, name)
  }

  predicate Tagged(link: Row, tag: Row, contactId: Value, organizationId: int, name: Value) {
    && Cell(link, ContactId) == contactId
    && Cell(tag, Id) != VNull && Cell(tag, Id) == Cell(link, TagId)
    && Cell(tag, OrganizationId) == VInt(organizationId)
    && Cell(tag, TagName) != VNull && Cell(tag, TagName) == name
    && Cell(tag, DeletedAt) == VNull
  }

  /** One of the listed names is on the contact; a null names no tag. */
  ghost predicate HasOneOf(ctx: Context, db: Database, contactId: Value, items: seq<Json>) {
    exists item, name :: && item in items && FieldReads(ctx.parsers, TypeStr, item, name)
                         && HasTag(db, contactId, ctx.organizationId, name)
  }

  ghost predicate TagMatches(ctx: Context, db: Database, contactId: Value, operator: Operator, value: Json) {
    match operator
    case OpHasTag => HasOneOf(ctx, db, contactId, [value])
    case OpNin => value.JList? && !HasOneOf(ctx, db, contactId, value.items)
    case _ => value.JList? && HasOneOf(ctx, db, contactId, value.items)
  }

  ghost predicate RuleMatches(ctx: Context, db: Database, rule: Rule, contact: Row)
    requires Accepted(ctx, rule)
  {
    match rule.source
    case Tag => TagMatches(ctx, db, Cell(contact, Id), rule.operator, rule.value)
    case Attribute =>
      var spec := ctx.attributes[rule.fieldKey];
      forall column :: HeldIn(column, spec.dataType) ==>
        var v := ValueOf(db.attributeValues, Cell(contact, Id), spec.attributeId, column);
        AttributeMatches(ctx, spec, rule.operator, v, rule.value)
    case OtherSource(_) => false
    case _ =>
      forall column, t :: FieldNamed(rule.source, rule.fieldKey, column, t) ==>
        FieldMatches(ctx, t, rule.operator, Cell(contact, column), rule.value)
  }

  lemma ColumnRuleMatches(ctx: Context, db: Database, rule: Rule, contact: Row)
    requires Accepted(ctx, rule) && (rule.source == Contact || rule.source == Engagement)
    ensures var (column, t) := ColumnFor(rule.source, rule.fieldKey).value;
            RuleMatches(ctx, db, rule, contact) <==>
            FieldMatches(ctx, t, rule.operator, Cell(contact, column), rule.value)
  {
    FieldNamedExact(rule.source, rule.fieldKey);
  }

  lemma AttributeRuleMatches(ctx: Context, db: Database, rule: Rule, contact: Row)
    requires Accepted(ctx, rule) && rule.source == Attribute
    ensures var spec := ctx.attributes[rule.fieldKey];
            var v := ValueOf(db.attributeValues, Cell(contact, Id), spec.attributeId, ValueColumn(spec.dataType));
            RuleMatches(ctx, db, rule, contact) <==> AttributeMatches(ctx, spec, rule.operator, v, rule.value)
  {
    ValueColumnExact(ctx.attributes[rule.fieldKey].dataType);
  }

  // ----- What the tables guarantee -----

  /** The NOT NULL and unique constraints that the proofs rely on. */
  ghost predicate Constrained(db: Database) {
    && (forall r :: r in db.attributeValues ==> Cell(r, ContactId) != VNull && Cell(r, AttributeId) != VNull)
    && (forall r :: r in db.contactTags ==> Cell(r, ContactId) != VNull)
    && OneValueEach(db.attributeValues)
  }

  ghost predicate OneValueEach(rows: seq<Row>) {
    forall i, j :: 0 <= i < j < |rows| ==>
      !(Cell(rows[i], ContactId) == Cell(rows[j], ContactId)
        && Cell(rows[i], AttributeId) == Cell(rows[j], AttributeId))
  }

  // ----- Which rules are safe to write -----

  predicate PlainSearch(p: Parsers, operator: Operator, value: Json, escapes: bool) {
    SearchKind(operator).Some? ==>
      match value
      case JStr(text) => Like.Plain(SearchKind(operator).value, text, escapes)
      case _ => Like.Plain(SearchKind(operator).value, p.formatted(value), escapes)
  }

  /**
    The rules that select what they say: no LIKE metacharacter in a search text, no null in the list
    of a column's `nin`, and no attribute compared with null.
  */
  predicate SelectsAsSaid(ctx: Context, rule: Rule, escapes: bool) {
    match rule.source
    case Tag => true
    case Attribute =>
      && PlainSearch(ctx.parsers, rule.operator, rule.value, escapes)
      && (rule.operator == OpEq || rule.operator == OpNe ==> !rule.value.JNull?)
    case _ =>
      && PlainSearch(ctx.parsers, rule.operator, rule.value, escapes)
      && (rule.operator == OpNin && rule.value.JList? ==> JNull !in rule.value.items)
  }

  // ----- Column rules -----

  lemma SearchHolds(kind: Like.Search, col: Column, s: string, db: Database, row: Row)
    requires Like.Plain(kind, s, db.backslashEscapes)
    ensures Holds(LikePattern(col, true, Like.Pattern(kind, s)), db, row) <==>
            Cell(row, col).VStr? && Like.Finds(kind, Like.Lower(Cell(row, col).s), Like.Lower(s))
  {
    LikeHolds(col, Like.Pattern(kind, s), db, row);
    if Cell(row, col).VStr? {
      Like.FoldedPlainFinds(kind, s, db.backslashEscapes, Cell(row, col).s);
    }
  }

  /** Values read from literals are the literals' values, in order. */
  lemma ReadItems(p: Parsers, reading: Reading, items: seq<Json>)
    requires ReadAll(p, reading, items).Ok?
    ensures var vs := ReadAll(p, reading, items).value;
            && |vs| == |items|
            && (forall i :: 0 <= i < |items| ==> vs[i] == Denoted(p, reading, items[i]))
            && forall v :: v in vs <==> exists item :: item in items && v == Denoted(p, reading, item)
  {
    ReadAllItems(p, reading, items);
    var vs := ReadAll(p, reading, items).value;
    forall i | 0 <= i < |items| ensures vs[i] == Denoted(p, reading, items[i]) {
      ReadDenoted(p, reading, items[i]);
    }
    forall v | exists item :: item in items && v == Denoted(p, reading, item) ensures v in vs {
      var item :| item in items && v == Denoted(p, reading, item);
      var i :| 0 <= i < |items| && items[i] == item;
      assert vs[i] == v;
    }
  }

  /** The condition that the compiler puts on a column, for a rule other than `exists`. */
  ghost predicate Faithful(p: Parsers, reading: Reading, column: Column, operator: Operator, value: Json,
                           condition: Cond, db: Database, row: Row) {
    Holds(condition, db, row) <==>
      Cell(row, column) != VNull && Passes(p, reading, operator, Cell(row, column), value)
  }

  lemma InFaithful(p: Parsers, reading: Reading, column: Column, value: Json, db: Database, row: Row)
    requires value.JList? && ReadAll(p, reading, value.items).Ok?
    ensures Faithful(p, reading, column, OpIn, value, InList(Col(column), ReadAll(p, reading, value.items).value),
            db, row)
  {
    ReadItems(p, reading, value.items);
    var v, vs := Cell(row, column), ReadAll(p, reading, value.items).value;
    assert Holds(InList(Col(column), vs), db, row) <==> v != VNull && v in vs;
  }

  /** One NULL among the values, and `NOT IN` is never TRUE. */
  lemma NotInFaithful(p: Parsers, reading: Reading, column: Column, value: Json, db: Database, row: Row)
    requires value.JList? && value.items != [] && ReadAll(p, reading, value.items).Ok?
    ensures var vs := ReadAll(p, reading, value.items).value;
            var condition := NotInList(Col(column), vs);
            && (VNull !in vs ==> Faithful(p, reading, column, OpNin, value, condition, db, row))
            && (VNull in vs ==> !Holds(condition, db, row))
  {
    ReadItems(p, reading, value.items);
    var v, vs := Cell(row, column), ReadAll(p, reading, value.items).value;
    assert Holds(NotInList(Col(column), vs), db, row) <==> v != VNull && v !in vs && VNull !in vs;
  }

  /** A range with a NULL bound is never TRUE. */
  lemma RangeFaithful(p: Parsers, reading: Reading, column: Column, value: Json, db: Database, row: Row)
    requires value.JList? && |value.items| == 2 && ReadAll(p, reading, value.items).Ok?
    ensures var vs := ReadAll(p, reading, value.items).value;
            |vs| == 2 && Faithful(p, reading, column, OpBetween, value, Between(Col(column), vs[0], vs[1]), db, row)
  {
    ReadItems(p, reading, value.items);
  }

  /** A comparison with a present literal is the operator's test. */
  lemma ComparisonFaithful(p: Parsers, reading: Reading, column: Column, operator: Operator, value: Json,
                           db: Database, row: Row)
    requires Comparison(operator).Some? && Denoted(p, reading, value) != VNull
    ensures Faithful(p, reading, column, operator, value,
                     Cmp(Comparison(operator).value, Col(column), Denoted(p, reading, value)), db, row)
  {}

  /** With null, `=` is built as IS NULL and `!=` as IS NOT NULL, and an ordering, if it is built, is never TRUE. */
  lemma NullComparison(p: Parsers, reading: Reading, column: Column, operator: Operator, value: Json,
                       refusesNull: bool, db: Database, row: Row)
    requires Comparison(operator).Some? && Denoted(p, reading, value) == VNull
    requires Built(Comparison(operator).value, Col(column), VNull, refusesNull).Ok?
    ensures var condition := Built(Comparison(operator).value, Col(column), VNull, refusesNull).value;
            if operator == OpEq then Holds(condition, db, row) <==> Cell(row, column) == VNull
            else Faithful(p, reading, column, operator, value, condition, db, row)
  {}

  lemma PlainSearchText(p: Parsers, operator: Operator, value: Json, escapes: bool)
    requires SearchKind(operator).Some?
    ensures PlainSearch(p, operator, value, escapes) <==>
            Like.Plain(SearchKind(operator).value, SearchText(p, value), escapes)
  {}

  lemma SearchPasses(p: Parsers, reading: Reading, operator: Operator, v: Value, value: Json)
    requires SearchKind(operator).Some?
    ensures Passes(p, reading, operator, v, value) <==>
            v.VStr? && Like.Finds(SearchKind(operator).value, Like.Lower(v.s), Like.Lower(SearchText(p, value)))
  {}

  lemma SearchFaithful(p: Parsers, reading: Reading, column: Column, operator: Operator, value: Json, db: Database,
                       row: Row)
    requires SearchKind(operator).Some? && PlainSearch(p, operator, value, db.backslashEscapes)
    ensures Faithful(p, reading, column, operator, value,
                     LikePattern(column, true, Like.Pattern(SearchKind(operator).value, SearchText(p, value))), db, row)
  {
    PlainSearchText(p, operator, value, db.backslashEscapes);
    SearchPasses(p, reading, operator, Cell(row, column), value);
    SearchHolds(SearchKind(operator).value, column, SearchText(p, value), db, row);
  }

  lemma NullLiteral(p: Parsers, items: seq<Json>)
    requires ReadAll(p, AsField(TypeStr), items).Ok?
    ensures VNull in ReadAll(p, AsField(TypeStr), items).value <==> JNull in items
  {
    ReadItems(p, AsField(TypeStr), items);
    if JNull in items {
      assert Denoted(p, AsField(TypeStr), JNull) == VNull;
    }
  }

  lemma FieldListMeaning(ctx: Context, column: Column, t: FieldType, operator: Operator, value: Json, db: Database,
                         row: Row)
    requires TakesList(operator) && operator in OpsOfField(t)
    requires value.JList? && value.items != [] && (operator == OpBetween ==> |value.items| == 2)
    requires FieldCondition(ctx, column, t, operator, value).Ok?
    ensures Holds(FieldCondition(ctx, column, t, operator, value).value, db, row) <==>
            FieldMatches(ctx, t, operator, Cell(row, column), value) && (operator == OpNin ==> JNull !in value.items)
  {
    if operator == OpBetween {
      RangeFaithful(ctx.parsers, AsField(t), column, value, db, row);
    } else if operator == OpIn {
      InFaithful(ctx.parsers, AsField(t), column, value, db, row);
    } else {
      NotInFaithful(ctx.parsers, AsField(t), column, value, db, row);
      NullLiteral(ctx.parsers, value.items);
    }
  }

  lemma FieldSearchCompiled(ctx: Context, column: Column, operator: Operator, value: Json)
    requires SearchKind(operator).Some?
    ensures FieldCondition(ctx, column, TypeStr, operator, value) ==
            Ok(LikePattern(column, true, Like.Pattern(SearchKind(operator).value, SearchText(ctx.parsers, value))))
  {}

  lemma FieldSearchMeaning(ctx: Context, column: Column, operator: Operator, value: Json, db: Database, row: Row)
    requires SearchKind(operator).Some? && PlainSearch(ctx.parsers, operator, value, db.backslashEscapes)
    ensures var condition := FieldCondition(ctx, column, TypeStr, operator, value);
            && condition.Ok?
            && (Holds(condition.value, db, row) <==> FieldMatches(ctx, TypeStr, operator, Cell(row, column), value))
  {
    FieldSearchCompiled(ctx, column, operator, value);
    SearchFaithful(ctx.parsers, AsField(TypeStr), column, operator, value, db, row);
  }

  lemma ComparisonCompiled(ctx: Context, column: Column, t: FieldType, operator: Operator, value: Json)
    requires Comparison(operator).Some? && FieldCondition(ctx, column, t, operator, value).Ok?
    ensures Read(ctx.parsers, AsField(t), value).Ok?
    ensures FieldCondition(ctx, column, t, operator, value) ==
            var literal := Denoted(ctx.parsers, AsField(t), value);
            Lift(Built(Comparison(operator).value, Col(column), literal, ctx.refusesNull))
  {
    ReadDenoted(ctx.parsers, AsField(t), value);
  }

  lemma ComparisonMatches(ctx: Context, t: FieldType, operator: Operator, v: Value, value: Json)
    requires Comparison(operator).Some?
    ensures FieldMatches(ctx, t, operator, v, value) <==>
            if operator == OpEq then v == Denoted(ctx.parsers, AsField(t), value)
            else v != VNull && Passes(ctx.parsers, AsField(t), operator, v, value)
  {}

  /** The built comparison, null or not, is the operator's test; `=` also finds a missing value equal to null. */
  lemma BuiltTests(p: Parsers, reading: Reading, column: Column, operator: Operator, value: Json, refusesNull: bool,
                   db: Database, row: Row)
    requires Comparison(operator).Some?
    requires Built(Comparison(operator).value, Col(column), Denoted(p, reading, value), refusesNull).Ok?
    ensures var literal := Denoted(p, reading, value);
            var condition := Built(Comparison(operator).value, Col(column), literal, refusesNull).value;
            if operator == OpEq then Holds(condition, db, row) <==> Cell(row, column) == literal
            else Faithful(p, reading, column, operator, value, condition, db, row)
  {
    if Denoted(p, reading, value) == VNull {
      NullComparison(p, reading, column, operator, value, refusesNull, db, row);
    } else {
      ComparisonFaithful(p, reading, column, operator, value, db, row);
    }
  }

  lemma BuiltMeaning(ctx: Context, column: Column, t: FieldType, operator: Operator, value: Json, db: Database,
                     row: Row)
    requires Comparison(operator).Some?
    requires var literal := Denoted(ctx.parsers, AsField(t), value);
             Built(Comparison(operator).value, Col(column), literal, ctx.refusesNull).Ok?
    ensures var literal := Denoted(ctx.parsers, AsField(t), value);
            var condition := Built(Comparison(operator).value, Col(column), literal, ctx.refusesNull).value;
            Holds(condition, db, row) <==> FieldMatches(ctx, t, operator, Cell(row, column), value)
  {
    BuiltTests(ctx.parsers, AsField(t), column, operator, value, ctx.refusesNull, db, row);
    ComparisonMatches(ctx, t, operator, Cell(row, column), value);
  }

  lemma FieldComparisonMeaning(ctx: Context, column: Column, t: FieldType, operator: Operator, value: Json,
                               db: Database, row: Row)
    requires Comparison(operator).Some? && FieldCondition(ctx, column, t, operator, value).Ok?
    ensures Holds(FieldCondition(ctx, column, t, operator, value).value, db, row) <==>
            FieldMatches(ctx, t, operator, Cell(row, column), value)
  {
    ComparisonCompiled(ctx, column, t, operator, value);
    BuiltMeaning(ctx, column, t, operator, value, db, row);
  }

  /** The operators of a column rule, by the way they are compiled. */
  lemma FieldOperators(t: FieldType, operator: Operator)
    requires operator in OpsOfField(t)
    ensures || operator == OpExists || TakesList(operator) || Comparison(operator).Some?
            || (SearchKind(operator).Some? && t == TypeStr)
  {}

  lemma FieldExistsMeaning(ctx: Context, column: Column, t: FieldType, value: Json, db: Database, row: Row)
    requires value.JBool?
    ensures var condition := FieldCondition(ctx, column, t, OpExists, value);
            && condition.Ok?
            && (Holds(condition.value, db, row) <==> FieldMatches(ctx, t, OpExists, Cell(row, column), value))
  {}

  /**
    A column rule that compiles selects the contacts it describes, except that a null in the list of
    `nin` leaves nobody.
  */
  lemma FieldMeaning(ctx: Context, column: Column, t: FieldType, operator: Operator, value: Json, db: Database,
                     row: Row)
    requires operator in OpsOfField(t) && ShapeAccepted(ctx.parsers, AsField(t), operator, value)
    requires PlainSearch(ctx.parsers, operator, value, db.backslashEscapes)
    requires FieldCondition(ctx, column, t, operator, value).Ok?
    ensures Holds(FieldCondition(ctx, column, t, operator, value).value, db, row) <==>
            && FieldMatches(ctx, t, operator, Cell(row, column), value)
            && (operator == OpNin ==> JNull !in value.items)
  {
    FieldOperators(t, operator);
    if operator == OpExists {
      FieldExistsMeaning(ctx, column, t, value, db, row);
    } else if TakesList(operator) {
      FieldListMeaning(ctx, column, t, operator, value, db, row);
    } else if SearchKind(operator).Some? {
      FieldSearchMeaning(ctx, column, operator, value, db, row);
    } else {
      FieldComparisonMeaning(ctx, column, t, operator, value, db, row);
    }
  }

  // ----- Membership subqueries -----

  /** With no NULL among the selected ids, membership is two-valued, and so is its negation. */
  lemma Membership(source: From, where: Cond, db: Database, contact: Row)
    requires Cell(contact, Id) != VNull
    requires forall r :: r in Rows(source, db) ==> Cell(r, ContactId) != VNull
    ensures var id := Cell(contact, Id);
            var found := exists r :: r in Rows(source, db) && Holds(where, db, r) && Cell(r, ContactId) == id;
            && (Holds(InSelect(Id, source, where), db, contact) <==> found)
            && (Holds(Not(InSelect(Id, source, where)), db, contact) <==> !found)
  {
    SelectedIds(where, db, Rows(source, db), Cell(contact, Id));
    SelectedIds(where, db, Rows(source, db), VNull);
  }

  lemma {:induction false} ValueOfRow(rows: seq<Row>, contactId: Value, attributeId: int, column: Column, r: Row)
    requires OneValueEach(rows) && r in rows
    requires Cell(r, ContactId) == contactId && Cell(r, AttributeId) == VInt(attributeId)
    ensures ValueOf(rows, contactId, attributeId, column) == Cell(r, column)
  {
    if Cell(rows[0], ContactId) == contactId && Cell(rows[0], AttributeId) == VInt(attributeId) {
      var i :| 0 <= i < |rows| && rows[i] == r;
    } else {
      assert forall i, j :: 0 <= i < j < |rows[1..]| ==> rows[1..][i] == rows[i + 1] && rows[1..][j] == rows[j + 1];
      ValueOfRow(rows[1..], contactId, attributeId, column, r);
    }
  }

  lemma {:induction false} ValueOfNoRow(rows: seq<Row>, contactId: Value, attributeId: int, column: Column)
    requires ValueOf(rows, contactId, attributeId, column) != VNull
    ensures exists r :: r in rows && Cell(r, ContactId) == contactId && Cell(r, AttributeId) == VInt(attributeId)
  {
    if !(Cell(rows[0], ContactId) == contactId && Cell(rows[0], AttributeId) == VInt(attributeId)) {
      ValueOfNoRow(rows[1..], contactId, attributeId, column);
    }
  }

  /**
    A subquery over the attribute rows finds the contact exactly when the condition holds of
    the contact's one value; a condition on the value column is never TRUE of a missing value.
  */
  lemma AttributeMembership(db: Database, contact: Row, attributeId: int, column: Column, condition: Cond,
                            test: Value -> bool)
    requires Constrained(db) && Cell(contact, Id) != VNull
    requires forall r: Row :: Holds(condition, db, r) <==> Cell(r, column) != VNull && test(Cell(r, column))
    ensures var where := And([Cmp(Eq, Col(AttributeId), VInt(attributeId)), condition]);
            var v := ValueOf(db.attributeValues, Cell(contact, Id), attributeId, column);
            && (Holds(InSelect(Id, ContactAttributeValues, where), db, contact) <==> v != VNull && test(v))
            && (Holds(Not(InSelect(Id, ContactAttributeValues, where)), db, contact) <==> !(v != VNull && test(v)))
  {
    var base := Cmp(Eq, Col(AttributeId), VInt(attributeId));
    var where := And([base, condition]);
    var rows, id := db.attributeValues, Cell(contact, Id);
    var v := ValueOf(rows, id, attributeId, column);
    Membership(ContactAttributeValues, where, db, contact);
    forall r | r in rows && Cell(r, ContactId) == id
      ensures Holds(where, db, r) <==> Cell(r, AttributeId) == VInt(attributeId) && v != VNull && test(v)
    {
      TwoOf(base, condition, db, r);
      if Cell(r, AttributeId) == VInt(attributeId) {
        ValueOfRow(rows, id, attributeId, column, r);
      }
    }
    if v != VNull {
      ValueOfNoRow(rows, id, attributeId, column);
    }
  }

  /** The operator whose positive form is searched for: `ne` and `nin` are negated as memberships. */
  function Positive(operator: Operator): Operator {
    if operator == OpNe then OpEq else if operator == OpNin then OpIn else operator
  }

  /** A rule other than `exists` that is not a comparison with null. */
  predicate Tests(p: Parsers, spec: AttributeSpec, operator: Operator, value: Json) {
    && operator != OpExists && operator in OpsOfAttribute(spec.dataType)
    && ShapeAccepted(p, AsAttribute(spec), operator, value)
    && (operator == OpEq || operator == OpNe ==> !value.JNull?)
  }

  /** The condition inside the subquery tests the attribute's own column. */
  lemma PredicateFaithful(ctx: Context, spec: AttributeSpec, operator: Operator, value: Json, db: Database, row: Row)
    requires Tests(ctx.parsers, spec, operator, value)
    requires PlainSearch(ctx.parsers, operator, value, db.backslashEscapes)
    requires AttributePredicate(ctx, spec, operator, value).Ok?
    ensures Faithful(ctx.parsers, AsAttribute(spec), ValueColumn(spec.dataType), Positive(operator), value,
                     AttributePredicate(ctx, spec, operator, value).value, db, row)
  {
    var p, reading, column := ctx.parsers, AsAttribute(spec), ValueColumn(spec.dataType);
    if operator == OpBetween {
      RangeFaithful(p, reading, column, value, db, row);
    } else if operator == OpIn || operator == OpNin {
      InFaithful(p, reading, column, value, db, row);
    } else if SearchKind(operator).Some? {
      SearchFaithful(p, reading, column, operator, value, db, row);
    } else {
      CoercedExact(p, spec.dataType, value, spec.enumValues);
      if value.JNull? {
        NullComparison(p, reading, column, operator, value, ctx.refusesNull, db, row);
      } else {
        ComparisonFaithful(p, reading, column, Positive(operator), value, db, row);
      }
    }
  }

  /** The whole membership test. */
  lemma AttributeTest(ctx: Context, spec: AttributeSpec, operator: Operator, value: Json, db: Database, contact: Row)
    requires Constrained(db) && Cell(contact, Id) != VNull
    requires Tests(ctx.parsers, spec, operator, value)
    requires PlainSearch(ctx.parsers, operator, value, db.backslashEscapes)
    requires AttributeCondition(ctx, spec, operator, value).Ok?
    ensures var v := ValueOf(db.attributeValues, Cell(contact, Id), spec.attributeId, ValueColumn(spec.dataType));
            var passes := v != VNull && Passes(ctx.parsers, AsAttribute(spec), Positive(operator), v, value);
            Holds(AttributeCondition(ctx, spec, operator, value).value, db, contact) <==>
            if operator == OpNe || operator == OpNin then !passes else passes
  {
    var p, reading, column := ctx.parsers, AsAttribute(spec), ValueColumn(spec.dataType);
    var condition := AttributePredicate(ctx, spec, operator, value).value;
    var test := v => Passes(p, reading, Positive(operator), v, value);
    forall r: Row ensures Holds(condition, db, r) <==> Cell(r, column) != VNull && test(Cell(r, column)) {
      PredicateFaithful(ctx, spec, operator, value, db, r);
    }
    AttributeMembership(db, contact, spec.attributeId, column, condition, test);
  }

  /** The rule's own reading is the membership test or its negation. */
  lemma AttributeReading(ctx: Context, spec: AttributeSpec, operator: Operator, v: Value, value: Json)
    requires Tests(ctx.parsers, spec, operator, value)
    ensures var passes := v != VNull && Passes(ctx.parsers, AsAttribute(spec), Positive(operator), v, value);
            AttributeMatches(ctx, spec, operator, v, value) <==>
            if operator == OpNe || operator == OpNin then !passes else passes
  {
    if operator == OpEq || operator == OpNe {
      CoercedExact(ctx.parsers, spec.dataType, value, spec.enumValues);
    }
  }

  /** An attribute rule that compiles, and compares nothing with null, selects the contacts it describes. */
  lemma AttributeMeaning(ctx: Context, spec: AttributeSpec, operator: Operator, value: Json, db: Database, contact: Row)
    requires Constrained(db) && Cell(contact, Id) != VNull
    requires operator in OpsOfAttribute(spec.dataType) && ShapeAccepted(ctx.parsers, AsAttribute(spec), operator, value)
    requires operator == OpEq || operator == OpNe ==> !value.JNull?
    requires PlainSearch(ctx.parsers, operator, value, db.backslashEscapes)
    requires AttributeCondition(ctx, spec, operator, value).Ok?
    ensures var v := ValueOf(db.attributeValues, Cell(contact, Id), spec.attributeId, ValueColumn(spec.dataType));
            Holds(AttributeCondition(ctx, spec, operator, value).value, db, contact) <==>
            AttributeMatches(ctx, spec, operator, v, value)
  {
    var column := ValueColumn(spec.dataType);
    if operator == OpExists {
      AttributeMembership(db, contact, spec.attributeId, column, IsNotNull(column), v => true);
    } else {
      AttributeTest(ctx, spec, operator, value, db, contact);
      var v := ValueOf(db.attributeValues, Cell(contact, Id), spec.attributeId, column);
      AttributeReading(ctx, spec, operator, v, value);
    }
  }

  // ----- Tag rules -----

  lemma {:induction false} JoinedWithMembers(link: Row, tags: seq<Row>, r: Row)
    ensures r in JoinedWith(link, tags) <==>
            exists tag :: tag in tags && Cell(tag, Id) != VNull && Cell(tag, Id) == Cell(link, TagId)
                          && r == tag[ContactId := Cell(link, ContactId)]
  {
    if tags != [] {
      JoinedWithMembers(link, tags[1..], r);
      assert forall tag :: tag in tags <==> tag == tags[0] || tag in tags[1..];
    }
  }

  lemma {:induction false} JoinedMembers(links: seq<Row>, tags: seq<Row>, r: Row)
    ensures r in Joined(links, tags) <==>
            exists link :: link in links && r in JoinedWith(link, tags)
  {
    if links == [] {
      assert Joined(links, tags) == [];
    } else {
      JoinedMembers(links[1..], tags, r);
      assert r in Joined(links, tags) <==> r in JoinedWith(links[0], tags) || r in Joined(links[1..], tags);
      assert forall link :: link in links <==> link == links[0] || link in links[1..];
    }
  }

  function TagWhere(organizationId: int, names: seq<Value>): Cond {
    And([Cmp(Eq, Col(OrganizationId), VInt(organizationId)), InList(Col(TagName), names), IsNull(DeletedAt)])
  }

  lemma TagWhereHolds(organizationId: int, names: seq<Value>, db: Database, row: Row)
    ensures Holds(TagWhere(organizationId, names), db, row) <==>
            && Cell(row, OrganizationId) == VInt(organizationId)
            && Cell(row, TagName) != VNull && Cell(row, TagName) in names
            && Cell(row, DeletedAt) == VNull
  {
    var cs := TagWhere(organizationId, names).cs;
    AndHolds(cs, db, row);
    assert cs[0] in cs && cs[1] in cs && cs[2] in cs;
    assert forall c :: c in cs ==> c == cs[0] || c == cs[1] || c == cs[2];
    assert Holds(cs[1], db, row) <==> Cell(row, TagName) != VNull && Cell(row, TagName) in names;
  }

  /** A joined row that passes comes from a live tag that the contact carries. */
  lemma JoinedRowTagged(organizationId: int, names: seq<Value>, db: Database, id: Value, r: Row)
    requires Constrained(db) && r in Rows(ContactTagsJoinTags, db)
    ensures Cell(r, ContactId) != VNull
    ensures Holds(TagWhere(organizationId, names), db, r) && Cell(r, ContactId) == id ==>
            exists name :: name in names && HasTag(db, id, organizationId, name)
  {
    JoinedMembers(db.contactTags, db.tags, r);
    var link :| link in db.contactTags && r in JoinedWith(link, db.tags);
    JoinedWithMembers(link, db.tags, r);
    var tag :| tag in db.tags && Cell(tag, Id) != VNull && Cell(tag, Id) == Cell(link, TagId)
               && r == tag[ContactId := Cell(link, ContactId)];
    TagWhereHolds(organizationId, names, db, r);
    if Holds(TagWhere(organizationId, names), db, r) && Cell(r, ContactId) == id {
      assert Tagged(link, tag, id, organizationId, Cell(tag, TagName));
    }
  }

  /** A live tag that the contact carries gives a joined row that passes. */
  lemma TaggedRowJoined(organizationId: int, names: seq<Value>, db: Database, id: Value, name: Value)
    returns (r: Row)
    requires name in names && HasTag(db, id, organizationId, name)
    ensures r in Rows(ContactTagsJoinTags, db) && Holds(TagWhere(organizationId, names), db, r)
            && Cell(r, ContactId) == id
  {
    var link, tag :| link in db.contactTags && tag in db.tags && Tagged(link, tag, id, organizationId, name);
    r := tag[ContactId := Cell(link, ContactId)];
    JoinedWithMembers(link, db.tags, r);
    JoinedMembers(db.contactTags, db.tags, r);
    TagWhereHolds(organizationId, names, db, r);
  }

  /** The joined subquery finds the contact exactly when one of the names is on it as a live tag. */
  lemma TagMembership(organizationId: int, names: seq<Value>, db: Database, contact: Row)
    requires Constrained(db) && Cell(contact, Id) != VNull
    ensures var where := TagWhere(organizationId, names);
            var found := exists name :: name in names && HasTag(db, Cell(contact, Id), organizationId, name);
            && (Holds(InSelect(Id, ContactTagsJoinTags, where), db, contact) <==> found)
            && (Holds(Not(InSelect(Id, ContactTagsJoinTags, where)), db, contact) <==> !found)
  {
    var id := Cell(contact, Id);
    forall r | r in Rows(ContactTagsJoinTags, db)
      ensures Cell(r, ContactId) != VNull
      ensures Holds(TagWhere(organizationId, names), db, r) && Cell(r, ContactId) == id ==>
              exists name :: name in names && HasTag(db, id, organizationId, name)
    {
      JoinedRowTagged(organizationId, names, db, id, r);
    }
    Membership(ContactTagsJoinTags, TagWhere(organizationId, names), db, contact);
    if exists name :: name in names && HasTag(db, id, organizationId, name) {
      var name :| name in names && HasTag(db, id, organizationId, name);
      var r := TaggedRowJoined(organizationId, names, db, id, name);
    }
  }

  lemma TagNameRead(p: Parsers, item: Json)
    ensures forall name :: AsLiteral(item) == Ok(name) <==> FieldReads(p, TypeStr, item, name)
  {}

  lemma NamedTags(ctx: Context, db: Database, contactId: Value, items: seq<Json>)
    requires TagNames(items).Ok?
    ensures HasOneOf(ctx, db, contactId, items) <==>
            exists name :: name in TagNames(items).value && HasTag(db, contactId, ctx.organizationId, name)
  {
    TagNamesItems(items);
    var names := TagNames(items).value;
    forall item, name | item in items && FieldReads(ctx.parsers, TypeStr, item, name) ensures name in names {
      TagNameRead(ctx.parsers, item);
      var i :| 0 <= i < |items| && items[i] == item;
      assert names[i] == name;
    }
    forall name | name in names ensures exists item :: item in items && FieldReads(ctx.parsers, TypeStr, item, name) {
      var i :| 0 <= i < |names| && names[i] == name;
      TagNameRead(ctx.parsers, items[i]);
      assert items[i] in items;
    }
  }

  /** The names that a tag rule asks for. */
  lemma TagCompiled(ctx: Context, operator: Operator, value: Json)
    requires operator in TAG_OPS && TagCondition(ctx.organizationId, operator, value).Ok?
    requires operator == OpHasTag || value.JList?
    ensures var names := TagNames(if operator == OpHasTag then [value] else value.items);
            && names.Ok?
            && var member := InSelect(Id, ContactTagsJoinTags, TagWhere(ctx.organizationId, names.value));
               TagCondition(ctx.organizationId, operator, value) ==
               Ok(if operator == OpNin then Not(member) else member)
  {
    if operator == OpHasTag {
      var name := AsLiteral(value).value;
      assert [value][1..] == [];
      assert TagNames([]) == Ok([]) && [name] + [] == [name];
      assert TagNames([value]) == Ok([name]);
    }
  }

  lemma TagMeaning(ctx: Context, operator: Operator, value: Json, db: Database, contact: Row)
    requires Constrained(db) && Cell(contact, Id) != VNull
    requires operator in TAG_OPS && (operator == OpHasTag || value.JList?)
    requires TagCondition(ctx.organizationId, operator, value).Ok?
    ensures Holds(TagCondition(ctx.organizationId, operator, value).value, db, contact) <==>
            TagMatches(ctx, db, Cell(contact, Id), operator, value)
  {
    var items := if operator == OpHasTag then [value] else value.items;
    TagCompiled(ctx, operator, value);
    NamedTags(ctx, db, Cell(contact, Id), items);
    TagMembership(ctx.organizationId, TagNames(items).value, db, contact);
  }

  // ----- Any rule -----

  /** For every database: an accepted rule that compiles and selects as said selects the contacts it describes. */
  lemma RuleMeaning(ctx: Context, rule: Rule, db: Database, contact: Row)
    requires Constrained(db) && Cell(contact, Id) != VNull
    requires Accepted(ctx, rule) && Compiles(ctx, rule) && SelectsAsSaid(ctx, rule, db.backslashEscapes)
    ensures RuleCondition(ctx, rule).Ok?
    ensures Holds(RuleCondition(ctx, rule).value, db, contact) <==> RuleMatches(ctx, db, rule, contact)
  {
    RuleProgress(ctx, rule);
    match rule.source {
      case Tag => TagMeaning(ctx, rule.operator, rule.value, db, contact);
      case Attribute =>
        AttributeRuleMatches(ctx, db, rule, contact);
        AttributeMeaning(ctx, ctx.attributes[rule.fieldKey], rule.operator, rule.value, db, contact);
      case OtherSource(_) =>
      case _ =>
        var (column, t) := ColumnFor(rule.source, rule.fieldKey).value;
        ColumnRuleMatches(ctx, db, rule, contact);
        FieldMeaning(ctx, column, t, rule.operator, rule.value, db, contact);
    }
  }

  // ----- Rules that do not select what they say -----

  lemma SearchMatches(ctx: Context, operator: Operator, v: Value, value: Json)
    requires SearchKind(operator).Some?
    ensures FieldMatches(ctx, TypeStr, operator, v, value) <==>
            && v.VStr?
            && Like.Finds(SearchKind(operator).value, Like.Lower(v.s), Like.Lower(SearchText(ctx.parsers, value)))
  {
    SearchPasses(ctx.parsers, AsField(TypeStr), operator, v, value);
  }

  lemma FieldSearchMisfires(ctx: Context, column: Column, operator: Operator, value: Json, db: Database)
    returns (contact: Row)
    requires SearchKind(operator).Some? && !PlainSearch(ctx.parsers, operator, value, db.backslashEscapes)
    ensures Cell(contact, Id) != VNull
    ensures FieldCondition(ctx, column, TypeStr, operator, value).Ok?
    ensures Holds(FieldCondition(ctx, column, TypeStr, operator, value).value, db, contact)
    ensures !FieldMatches(ctx, TypeStr, operator, Cell(contact, column), value)
  {
    var kind, text := SearchKind(operator).value, SearchText(ctx.parsers, value);
    PlainSearchText(ctx.parsers, operator, value, db.backslashEscapes);
    var t := Like.FoldedMisfire(kind, text, db.backslashEscapes);
    contact := map[Id := VInt(1)][column := VStr(t)];
    FieldSearchCompiled(ctx, column, operator, value);
    LikeHolds(column, Like.Pattern(kind, text), db, contact);
    SearchMatches(ctx, operator, VStr(t), value);
  }

  /** A text longer than every text literal is none of them. */
  lemma {:induction false} FreshText(items: seq<Json>) returns (t: string)
    ensures t != ""
    ensures forall item :: item in items && item.JStr? ==> |item.s| < |t|
  {
    if items == [] {
      t := "x";
    } else {
      t := FreshText(items[1..]);
      t := t + if items[0].JStr? then items[0].s else "";
    }
  }

  lemma NullListMisfires(ctx: Context, column: Column, value: Json, db: Database) returns (contact: Row)
    requires value.JList? && JNull in value.items && FieldCondition(ctx, column, TypeStr, OpNin, value).Ok?
    ensures Cell(contact, Id) != VNull
    ensures !Holds(FieldCondition(ctx, column, TypeStr, OpNin, value).value, db, contact)
    ensures FieldMatches(ctx, TypeStr, OpNin, Cell(contact, column), value)
  {
    var t := FreshText(value.items);
    contact := map[Id := VInt(1)][column := VStr(t)];
    FieldListMeaning(ctx, column, TypeStr, OpNin, value, db, contact);
    forall item | item in value.items ensures Denoted(ctx.parsers, AsField(TypeStr), item) != VStr(t) {}
  }

  lemma AttributeSearchCompiled(ctx: Context, spec: AttributeSpec, operator: Operator, value: Json)
    requires spec.dataType == TString && SearchKind(operator).Some?
    requires CoerceAttribute(ctx.parsers, spec, value).Ok?
    ensures var pattern := Like.Pattern(SearchKind(operator).value, SearchText(ctx.parsers, value));
            var base := Cmp(Eq, Col(AttributeId), VInt(spec.attributeId));
            var where := And([base, LikePattern(ValueString, true, pattern)]);
            AttributeCondition(ctx, spec, operator, value) == Ok(InSelect(Id, ContactAttributeValues, where))
  {}

  /** A contact whose one value is the given text. */
  lemma TextSelected(attributeId: int, pattern: string, t: string, escapes: bool)
    returns (db: Database, contact: Row)
    requires Like.MatchesFolded(t, pattern, escapes)
    ensures db.backslashEscapes == escapes && Constrained(db) && Cell(contact, Id) != VNull
    ensures ValueOf(db.attributeValues, Cell(contact, Id), attributeId, ValueString) == VStr(t)
    ensures var where := And([Cmp(Eq, Col(AttributeId), VInt(attributeId)), LikePattern(ValueString, true, pattern)]);
            Holds(InSelect(Id, ContactAttributeValues, where), db, contact)
  {
    var row: Row := map[ContactId := VInt(1), AttributeId := VInt(attributeId), ValueString := VStr(t)];
    db, contact := Database([row], [], [], escapes, false), map[Id := VInt(1)];
    var condition := LikePattern(ValueString, true, pattern);
    var test := (v: Value) => v.VStr? && Like.MatchesFolded(v.s, pattern, escapes);
    forall r: Row
      ensures Holds(condition, db, r) <==> Cell(r, ValueString) != VNull && test(Cell(r, ValueString))
    {
      LikeHolds(ValueString, pattern, db, r);
    }
    ValueOfRow([row], VInt(1), attributeId, ValueString, row);
    AttributeMembership(db, contact, attributeId, ValueString, condition, test);
  }

  lemma AttributeSearchMisfires(ctx: Context, spec: AttributeSpec, operator: Operator, value: Json, escapes: bool)
    returns (db: Database, contact: Row)
    requires spec.dataType == TString && SearchKind(operator).Some?
    requires CoerceAttribute(ctx.parsers, spec, value).Ok?
    requires !PlainSearch(ctx.parsers, operator, value, escapes)
    ensures db.backslashEscapes == escapes && Constrained(db) && Cell(contact, Id) != VNull
    ensures AttributeCondition(ctx, spec, operator, value).Ok?
    ensures Holds(AttributeCondition(ctx, spec, operator, value).value, db, contact)
    ensures !AttributeMatches(ctx, spec, operator,
                              ValueOf(db.attributeValues, Cell(contact, Id), spec.attributeId, ValueString), value)
  {
    var kind, text := SearchKind(operator).value, SearchText(ctx.parsers, value);
    PlainSearchText(ctx.parsers, operator, value, escapes);
    var t := Like.FoldedMisfire(kind, text, escapes);
    SearchPasses(ctx.parsers, AsAttribute(spec), operator, VStr(t), value);
    AttributeSearchCompiled(ctx, spec, operator, value);
    db, contact := TextSelected(spec.attributeId, Like.Pattern(kind, text), t, escapes);
  }

  /** `eq null` finds no contact without a row for the attribute, and `ne null` finds every one. */
  lemma NullComparisonMisfires(ctx: Context, spec: AttributeSpec, operator: Operator, value: Json, db: Database,
                               contact: Row)
    requires operator == OpEq || operator == OpNe
    requires value.JNull? && db.attributeValues == []
    ensures AttributeCondition(ctx, spec, operator, value).Ok?
    ensures var v := ValueOf(db.attributeValues, Cell(contact, Id), spec.attributeId, ValueColumn(spec.dataType));
            Holds(AttributeCondition(ctx, spec, operator, value).value, db, contact) <==>
            !AttributeMatches(ctx, spec, operator, v, value)
  {
    var column := ValueColumn(spec.dataType);
    assert AttributePredicate(ctx, spec, operator, value) == Ok(IsNull(column));
    var where := And([Cmp(Eq, Col(AttributeId), VInt(spec.attributeId)), IsNull(column)]);
    assert SelectContactIds(where, db, Rows(ContactAttributeValues, db)) == [];
    assert Eval(InSelect(Id, ContactAttributeValues, where), db, contact) == False;
  }

  lemma AttributeMisfires(ctx: Context, rule: Rule, escapes: bool) returns (db: Database, contact: Row)
    requires Accepted(ctx, rule) && rule.source == Attribute && !SelectsAsSaid(ctx, rule, escapes)
    ensures Stored(db, contact, escapes) && RuleCondition(ctx, rule).Ok?
    ensures Holds(RuleCondition(ctx, rule).value, db, contact) <==> !RuleMatches(ctx, db, rule, contact)
  {
    var spec := ctx.attributes[rule.fieldKey];
    if PlainSearch(ctx.parsers, rule.operator, rule.value, escapes) {
      db, contact := Database([], [], [], escapes, false), map[Id := VInt(1)];
      NullComparisonMisfires(ctx, spec, rule.operator, rule.value, db, contact);
    } else {
      db, contact := AttributeSearchMisfires(ctx, spec, rule.operator, rule.value, escapes);
    }
    AttributeRuleMatches(ctx, db, rule, contact);
  }

  lemma TextOperators(t: FieldType, operator: Operator)
    requires operator in OpsOfField(t) && (SearchKind(operator).Some? || operator == OpNin)
    ensures t == TypeStr
  {}

  lemma FieldMisfires(ctx: Context, column: Column, t: FieldType, operator: Operator, value: Json, db: Database)
    returns (contact: Row)
    requires operator in OpsOfField(t) && FieldCondition(ctx, column, t, operator, value).Ok?
    requires PlainSearch(ctx.parsers, operator, value, db.backslashEscapes) ==>
               operator == OpNin && value.JList? && JNull in value.items
    ensures Cell(contact, Id) != VNull
    ensures Holds(FieldCondition(ctx, column, t, operator, value).value, db, contact) <==>
            !FieldMatches(ctx, t, operator, Cell(contact, column), value)
  {
    TextOperators(t, operator);
    if PlainSearch(ctx.parsers, operator, value, db.backslashEscapes) {
      contact := NullListMisfires(ctx, column, value, db);
    } else {
      contact := FieldSearchMisfires(ctx, column, operator, value, db);
    }
  }

  lemma ColumnMisfires(ctx: Context, rule: Rule, escapes: bool) returns (db: Database, contact: Row)
    requires Accepted(ctx, rule) && RuleCondition(ctx, rule).Ok? && !SelectsAsSaid(ctx, rule, escapes)
    requires rule.source == Contact || rule.source == Engagement
    ensures Stored(db, contact, escapes)
    ensures Holds(RuleCondition(ctx, rule).value, db, contact) <==> !RuleMatches(ctx, db, rule, contact)
  {
    var (column, t) := ColumnFor(rule.source, rule.fieldKey).value;
    db := Database([], [], [], escapes, false);
    contact := FieldMisfires(ctx, column, t, rule.operator, rule.value, db);
    ColumnRuleMatches(ctx, db, rule, contact);
  }

  lemma RuleMisfires(ctx: Context, rule: Rule, escapes: bool) returns (db: Database, contact: Row)
    requires Accepted(ctx, rule) && Compiles(ctx, rule) && !SelectsAsSaid(ctx, rule, escapes)
    ensures Stored(db, contact, escapes) && RuleCondition(ctx, rule).Ok?
    ensures Holds(RuleCondition(ctx, rule).value, db, contact) <==> !RuleMatches(ctx, db, rule, contact)
  {
    if rule.source == Attribute {
      db, contact := AttributeMisfires(ctx, rule, escapes);
    } else {
      RuleProgress(ctx, rule);
      db, contact := ColumnMisfires(ctx, rule, escapes);
    }
  }

  ghost predicate Means(ctx: Context, rule: Rule, db: Database, contact: Row)
    requires Accepted(ctx, rule)
  {
    && RuleCondition(ctx, rule).Ok?
    && (Holds(RuleCondition(ctx, rule).value, db, contact) <==> RuleMatches(ctx, db, rule, contact))
  }

  /** A database of either kind that keeps its constraints, and a stored contact. */
  ghost predicate Stored(db: Database, contact: Row, escapes: bool) {
    db.backslashEscapes == escapes && Constrained(db) && Cell(contact, Id) != VNull
  }

  /**
    The condition of an accepted rule that compiles selects exactly the contacts the rule describes,
    in every database, if and only if the rule selects as said.
  */
  lemma RuleMeaningExact(ctx: Context, rule: Rule, escapes: bool)
    requires Accepted(ctx, rule) && Compiles(ctx, rule)
    ensures SelectsAsSaid(ctx, rule, escapes) <==>
            forall db: Database, contact: Row :: Stored(db, contact, escapes) ==> Means(ctx, rule, db, contact)
  {
    if SelectsAsSaid(ctx, rule, escapes) {
      forall db: Database, contact: Row | Stored(db, contact, escapes) ensures Means(ctx, rule, db, contact) {
        RuleMeaning(ctx, rule, db, contact);
      }
    } else {
      var db, contact := RuleMisfires(ctx, rule, escapes);
      assert Stored(db, contact, escapes) && !Means(ctx, rule, db, contact);
    }
  }
}
