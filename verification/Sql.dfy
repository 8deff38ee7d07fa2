/**
  A first-order model of the SQL the repositories build: nullable cells, expressions,
  conditions with three-valued evaluation, membership subqueries and ORDER BY terms.

  Tables are sequences of rows and a row maps columns to values; a column that a row does not
  hold reads as NULL. NULL sorts below every value, as in MySQL and SQLite.
*/
module Sql {
  import opened Wrappers
  import Like

  datatype Column =
    // shared and contacts
    | Id | OrganizationId | DeletedAt | CreatedAt
    | FullName | FirstName | LastName | Email | PhoneE164 | WaId | CountryCode | Locale
    | OptInStatus | Source | IsActiveOnWa | LastInboundAt | LastOutboundAt | LastContactedAt
    // contact_attribute_values
    | ContactId | AttributeId | ValueString | ValueNumber | ValueDatetime | ValueBoolean
    // contact_tags and tags
    | TagId | TagName
    // tasks
    | AssignedAgentId | CreatedBy | ConversationId | Status | TaskType | Priority
    | DueAt | CompletedAt | Title | Description

  datatype Value =
    | VNull
    | VInt(i: int)
    | VNum(r: real)
    | VStr(s: string)
    | VBool(b: bool)
    | VTime(t: int)

  type Row = map<Column, Value>

  function Cell(row: Row, col: Column): Value {
    if col in row then row[col] else VNull
  }

  /** The tables that conditions look into, and how LIKE works: whether \ escapes and whether case counts. */
  datatype Database = Database(
    attributeValues: seq<Row>,
    contactTags: seq<Row>,
    tags: seq<Row>,
    backslashEscapes: bool,
    likeFolds: bool)

  // ----- Order on values -----

  function Kind(v: Value): nat {
    match v
    case VNull => 0
    case VInt(_) => 1
    case VNum(_) => 2
    case VStr(_) => 3
    case VBool(_) => 4
    case VTime(_) => 5
  }

  predicate TextLess(s: string, t: string) {
    t != [] && (s == [] || s[0] < t[0] || (s[0] == t[0] && TextLess(s[1..], t[1..])))
  }

  predicate Less(a: Value, b: Value) {
    if Kind(a) != Kind(b) then Kind(a) < Kind(b)
    else match a
      case VNull => false
      case VInt(i) => i < b.i
      case VNum(r) => r < b.r
      case VStr(s) => TextLess(s, b.s)
      case VBool(x) => !x && b.b
      case VTime(t) => t < b.t
  }

  lemma {:induction false} TextLessOrder(s: string, t: string, u: string)
    ensures !TextLess(s, s)
    ensures TextLess(s, t) || s == t || TextLess(t, s)
    ensures TextLess(s, t) && TextLess(t, u) ==> TextLess(s, u)
    decreases |s|
  {
    if s != [] {
      var t' := if t == [] then [] else t[1..];
      var u' := if u == [] then [] else u[1..];
      TextLessOrder(s[1..], t', u');
      if t != [] && s[0] == t[0] && s[1..] == t[1..] {
        assert s == [s[0]] + s[1..] && t == [t[0]] + t[1..];
      }
    }
  }

  /** One text is less than another at the first difference, or if it is a proper prefix. */
  lemma {:induction false} TextLessMeans(s: string, t: string)
    ensures TextLess(s, t) <==>
            exists k :: 0 <= k <= |s| && k < |t| && s[..k] == t[..k] && (k == |s| || s[k] < t[k])
    decreases |s|
  {
    if s == [] {
      assert t != [] ==> s[..0] == t[..0];
    } else if t != [] {
      TextLessMeans(s[1..], t[1..]);
      if s[0] < t[0] {
        assert s[..0] == t[..0];
      }
      if k :| 0 <= k <= |s[1..]| && k < |t[1..]| && s[1..][..k] == t[1..][..k]
              && (k == |s[1..]| || s[1..][k] < t[1..][k]) && s[0] == t[0] {
        assert s[..k + 1] == [s[0]] + s[1..][..k] && t[..k + 1] == [t[0]] + t[1..][..k];
      }
      if k :| 0 < k <= |s| && k < |t| && s[..k] == t[..k] && (k == |s| || s[k] < t[k]) {
        assert s[1..][..k - 1] == s[..k][1..] && t[1..][..k - 1] == t[..k][1..];
        assert s[0] == s[..k][0] && t[0] == t[..k][0];
      }
    }
  }

  /** NULL is below everything, and values of one kind are ordered as they are in their kind. */
  lemma LessMeans()
    ensures forall v :: v != VNull ==> Less(VNull, v)
    ensures forall i, j :: Less(VInt(i), VInt(j)) <==> i < j
    ensures forall r, q :: Less(VNum(r), VNum(q)) <==> r < q
    ensures forall t, u :: Less(VTime(t), VTime(u)) <==> t < u
    ensures Less(VBool(false), VBool(true))
    ensures forall s, t :: Less(VStr(s), VStr(t)) <==> TextLess(s, t)
  {}

  /** Less is a strict total order on values. */
  lemma LessOrder(a: Value, b: Value, c: Value)
    ensures !Less(a, a)
    ensures Less(a, b) || a == b || Less(b, a)
    ensures Less(a, b) && Less(b, c) ==> Less(a, c)
  {
    if a.VStr? {
      TextLessOrder(a.s, if b.VStr? then b.s else "", if c.VStr? then c.s else "");
    }
  }

  lemma LessAsymmetric(a: Value, b: Value)
    ensures !(Less(a, b) && Less(b, a))
    ensures !(a == b && Less(a, b))
  {
    LessOrder(a, b, a);
  }

  // ----- Three-valued logic -----

  datatype Tri = True | False | Unknown

  function Known(b: bool): Tri { if b then True else False }

  function Not3(a: Tri): Tri {
    match a case True => False case False => True case Unknown => Unknown
  }

  function And3(a: Tri, b: Tri): Tri {
    if a == False || b == False then False
    else if a == True && b == True then True
    else Unknown
  }

  function Or3(a: Tri, b: Tri): Tri { Not3(And3(Not3(a), Not3(b))) }

  function Truth(a: Tri): int {
    match a case False => 0 case Unknown => 1 case True => 2
  }

  /** On the scale FALSE, UNKNOWN, TRUE, AND is the lower, OR the higher, and NOT the mirror image. */
  lemma ThreeValues(a: Tri, b: Tri)
    ensures Truth(And3(a, b)) == if Truth(a) <= Truth(b) then Truth(a) else Truth(b)
    ensures Truth(Or3(a, b)) == if Truth(a) <= Truth(b) then Truth(b) else Truth(a)
    ensures Truth(Not3(a)) == 2 - Truth(a)
  {}

  datatype CmpOp = Eq | Ne | Lt | Le | Gt | Ge

  function Compare3(op: CmpOp, a: Value, b: Value): Tri {
    if a == VNull || b == VNull then Unknown
    else Known(match op
               case Eq => a == b
               case Ne => a != b
               case Lt => Less(a, b)
               case Le => !Less(b, a)
               case Gt => Less(b, a)
               case Ge => !Less(a, b))
  }

  /** `v IN (vs)`: FALSE on an empty list, UNKNOWN as soon as a NULL could have been the match. */
  function In3(v: Value, vs: seq<Value>): Tri {
    if vs == [] then False
    else if v == VNull then Unknown
    else if v in vs then True
    else if VNull in vs then Unknown
    else False
  }

  // ----- Expressions and conditions -----

  datatype Expr =
    | Col(col: Column)
    | NullFlag(col: Column)                                    // col IS NULL, as an ordering key
    | Case(col: Column, table: map<string, int>, default: int) // CASE col WHEN .. ELSE default

  function Rank(table: map<string, int>, default: int, v: Value): int {
    if v.VStr? && v.s in table then table[v.s] else default
  }

  function EvalExpr(e: Expr, row: Row): Value {
    match e
    case Col(c) => Cell(row, c)
    case NullFlag(c) => VBool(Cell(row, c) == VNull)
    case Case(c, table, d) => VInt(Rank(table, d, Cell(row, c)))
  }

  /** The row sources that membership subqueries select a contact_id from. */
  datatype From = ContactTagsJoinTags | ContactAttributeValues

  datatype Cond =
    | Cmp(op: CmpOp, e: Expr, lit: Value)
    | Between(e: Expr, lo: Value, hi: Value)
    | InList(e: Expr, vs: seq<Value>)
    | NotInList(e: Expr, vs: seq<Value>)
    | IsNull(col: Column)
    | IsNotNull(col: Column)
    | IsBool(col: Column, b: bool)
    | LikePattern(col: Column, folded: bool, pattern: string)
    | InSelect(col: Column, source: From, where: Cond)
    | Not(c: Cond)
    | And(cs: seq<Cond>)
    | Or(cs: seq<Cond>)

  function Like3(v: Value, folded: bool, pattern: string, escapes: bool): Tri {
    if !v.VStr? then Unknown
    else Known(if folded then Like.MatchesFolded(v.s, pattern, escapes) else Like.Matches(v.s, pattern, escapes))
  }

  /** contact_tags JOIN tags ON tags.id = contact_tags.tag_id */
  function Joined(contactTags: seq<Row>, tags: seq<Row>): seq<Row> {
    if contactTags == [] then []
    else JoinedWith(contactTags[0], tags) + Joined(contactTags[1..], tags)
  }

  function JoinedWith(link: Row, tags: seq<Row>): seq<Row> {
    if tags == [] then []
    else (if Compare3(Eq, Cell(tags[0], Id), Cell(link, TagId)) == True
          then [tags[0][ContactId := Cell(link, ContactId)]] else [])
         + JoinedWith(link, tags[1..])
  }

  function Rows(source: From, db: Database): seq<Row> {
    match source
    case ContactTagsJoinTags => Joined(db.contactTags, db.tags)
    case ContactAttributeValues => db.attributeValues
  }

  function Eval(c: Cond, db: Database, row: Row): Tri
    decreases c, 0
  {
    match c
    case Cmp(op, e, lit) => Compare3(op, EvalExpr(e, row), lit)
    case Between(e, lo, hi) =>
      And3(Compare3(Ge, EvalExpr(e, row), lo), Compare3(Le, EvalExpr(e, row), hi))
    case InList(e, vs) => In3(EvalExpr(e, row), vs)
    case NotInList(e, vs) => Not3(In3(EvalExpr(e, row), vs))
    case IsNull(col) => Known(Cell(row, col) == VNull)
    case IsNotNull(col) => Known(Cell(row, col) != VNull)
    case IsBool(col, b) => Known(Cell(row, col) == VBool(b))
    case LikePattern(col, folded, pattern) =>
      Like3(Cell(row, col), folded || db.likeFolds, pattern, db.backslashEscapes)
    case InSelect(col, source, where) => In3(Cell(row, col), SelectContactIds(where, db, Rows(source, db)))
    case Not(d) => Not3(Eval(d, db, row))
    case And(cs) => EvalAnd(cs, db, row)
    case Or(cs) => EvalOr(cs, db, row)
  }

  function EvalAnd(cs: seq<Cond>, db: Database, row: Row): Tri
    decreases cs, 0
  {
    if cs == [] then True else And3(Eval(cs[0], db, row), EvalAnd(cs[1..], db, row))
  }

  function EvalOr(cs: seq<Cond>, db: Database, row: Row): Tri
    decreases cs, 0
  {
    if cs == [] then False else Or3(Eval(cs[0], db, row), EvalOr(cs[1..], db, row))
  }

  /** SELECT contact_id FROM rows WHERE where */
  function SelectContactIds(where: Cond, db: Database, rows: seq<Row>): seq<Value>
    decreases where, |rows| + 1
  {
    if rows == [] then []
    else (if Eval(where, db, rows[0]) == True then [Cell(rows[0], ContactId)] else [])
         + SelectContactIds(where, db, rows[1..])
  }

  /** A row is selected when the condition is TRUE, not merely when it is not FALSE. */
  predicate Holds(c: Cond, db: Database, row: Row) {
    Eval(c, db, row) == True
  }

  predicate AllHold(cs: seq<Cond>, db: Database, row: Row) {
    forall c :: c in cs ==> Holds(c, db, row)
  }

  lemma {:induction false} AndHolds(cs: seq<Cond>, db: Database, row: Row)
    ensures Holds(And(cs), db, row) <==> AllHold(cs, db, row)
  {
    if cs == [] {
      assert EvalAnd(cs, db, row) == True;
    } else {
      AndHolds(cs[1..], db, row);
      assert Eval(And(cs), db, row) == And3(Eval(cs[0], db, row), Eval(And(cs[1..]), db, row));
      assert Holds(And(cs), db, row) <==> Holds(cs[0], db, row) && Holds(And(cs[1..]), db, row);
      assert forall c :: c in cs <==> c == cs[0] || c in cs[1..];
    }
  }

  lemma {:induction false} OrHolds(cs: seq<Cond>, db: Database, row: Row)
    ensures Holds(Or(cs), db, row) <==> exists c :: c in cs && Holds(c, db, row)
  {
    if cs == [] {
      assert EvalOr(cs, db, row) == False;
    } else {
      OrHolds(cs[1..], db, row);
      assert Eval(Or(cs), db, row) == Or3(Eval(cs[0], db, row), Eval(Or(cs[1..]), db, row));
      assert Holds(Or(cs), db, row) <==> Holds(cs[0], db, row) || Holds(Or(cs[1..]), db, row);
      assert forall c :: c in cs <==> c == cs[0] || c in cs[1..];
    }
  }

  lemma {:induction false} SelectedIds(where: Cond, db: Database, rows: seq<Row>, v: Value)
    ensures v in SelectContactIds(where, db, rows) <==>
            exists r :: r in rows && Holds(where, db, r) && Cell(r, ContactId) == v
  {
    if rows != [] {
      SelectedIds(where, db, rows[1..], v);
      assert rows == [rows[0]] + rows[1..];
    }
  }

  // ----- The statement builder's treatment of a None operand -----

  datatype BuildError = NullOperand

  /**
    `column <op> literal`. With a None literal, == and != become IS NULL and IS NOT NULL;
    whether an ordering comparison with None is refused is a matter of the builder,
    so it is a parameter.
  */
  function Built(op: CmpOp, e: Expr, lit: Value, refusesNull: bool): Result<Cond, BuildError> {
    if lit != VNull then Ok(Cmp(op, e, lit))
    else if op == Eq && e.Col? then Ok(IsNull(e.col))
    else if op == Ne && e.Col? then Ok(IsNotNull(e.col))
    else if refusesNull then Err(NullOperand)
    else Ok(Cmp(op, e, lit))
  }

  /** The next clause of a list that grows under a condition. */
  function Appended(cs: seq<Cond>, more: Option<Cond>): (r: seq<Cond>)
    ensures forall c :: c in r <==> c in cs || more == Some(c)
  {
    if more.None? then cs else cs + [more.value]
  }

  ghost predicate OptionHolds(c: Option<Cond>, db: Database, row: Row) {
    c.Some? ==> Holds(c.value, db, row)
  }

  lemma AppendedHolds(cs: seq<Cond>, more: Option<Cond>, db: Database, row: Row)
    ensures AllHold(Appended(cs, more), db, row) <==> AllHold(cs, db, row) && OptionHolds(more, db, row)
  {
    assert more.Some? ==> more.value in Appended(cs, more);
  }

  /** The two clauses that every list of an organisation starts with. */
  lemma LiveInOrganization(organizationId: int, db: Database, row: Row)
    ensures AllHold([Cmp(Eq, Col(OrganizationId), VInt(organizationId)), IsNull(DeletedAt)], db, row) <==>
            Cell(row, OrganizationId) == VInt(organizationId) && Cell(row, DeletedAt) == VNull
  {
    var org := Cmp(Eq, Col(OrganizationId), VInt(organizationId));
    var cs := [org, IsNull(DeletedAt)];
    assert AllHold(cs, db, row) <==> Holds(org, db, row) && Holds(IsNull(DeletedAt), db, row) by {
      assert org in cs && IsNull(DeletedAt) in cs;
      assert forall c :: c in cs ==> c == org || c == IsNull(DeletedAt);
    }
  }

  lemma LikeHolds(col: Column, pattern: string, db: Database, row: Row)
    ensures Holds(LikePattern(col, true, pattern), db, row) <==>
            Cell(row, col).VStr? && Like.MatchesFolded(Cell(row, col).s, pattern, db.backslashEscapes)
  {}

  lemma TwoOf(x: Cond, y: Cond, db: Database, row: Row)
    ensures Holds(And([x, y]), db, row) <==> Holds(x, db, row) && Holds(y, db, row)
    ensures Holds(Or([x, y]), db, row) <==> Holds(x, db, row) || Holds(y, db, row)
  {
    var cs := [x, y];
    AndHolds(cs, db, row);
    OrHolds(cs, db, row);
    assert cs[0] == x && cs[1] == y && x in cs && y in cs;
  }

  lemma ThreeOf(x: Cond, y: Cond, z: Cond, db: Database, row: Row)
    ensures Holds(Or([x, y, z]), db, row) <==> Holds(x, db, row) || Holds(y, db, row) || Holds(z, db, row)
  {
    var cs := [x, y, z];
    OrHolds(cs, db, row);
    assert cs[0] == x && cs[1] == y && cs[2] == z && x in cs && y in cs && z in cs;
  }

  // ----- ORDER BY -----

  datatype OrderTerm = OrderTerm(e: Expr, descending: bool)

  /** Row `a` may stand before row `b` under the ORDER BY terms. */
  predicate AtMost(order: seq<OrderTerm>, a: Row, b: Row) {
    if order == [] then true
    else
      var x, y := EvalExpr(order[0].e, a), EvalExpr(order[0].e, b);
      if x == y then AtMost(order[1..], a, b)
      else if order[0].descending then Less(y, x) else Less(x, y)
  }

  /** Row `a` must stand before row `b`. */
  predicate Before(order: seq<OrderTerm>, a: Row, b: Row) {
    !AtMost(order, b, a)
  }

  lemma {:induction false} AtMostIsTotal(order: seq<OrderTerm>, a: Row, b: Row)
    ensures AtMost(order, a, b) || AtMost(order, b, a)
  {
    if order != [] {
      AtMostIsTotal(order[1..], a, b);
      var x, y := EvalExpr(order[0].e, a), EvalExpr(order[0].e, b);
      LessOrder(x, y, x);
    }
  }

  lemma {:induction false} AtMostIsTransitive(order: seq<OrderTerm>, a: Row, b: Row, c: Row)
    requires AtMost(order, a, b) && AtMost(order, b, c)
    ensures AtMost(order, a, c)
  {
    if order != [] {
      var x, y, z := EvalExpr(order[0].e, a), EvalExpr(order[0].e, b), EvalExpr(order[0].e, c);
      LessOrder(x, y, z);
      LessOrder(z, y, x);
      LessAsymmetric(x, y);
      LessAsymmetric(y, z);
      if x == y && y == z {
        AtMostIsTransitive(order[1..], a, b, c);
      }
    }
  }

  /** Rows that may stand either way round agree on every ordering key. */
  lemma {:induction false} TiedRowsAgree(order: seq<OrderTerm>, a: Row, b: Row, term: OrderTerm)
    requires AtMost(order, a, b) && AtMost(order, b, a)
    requires term in order
    ensures EvalExpr(term.e, a) == EvalExpr(term.e, b)
  {
    var x, y := EvalExpr(order[0].e, a), EvalExpr(order[0].e, b);
    LessAsymmetric(x, y);
    LessAsymmetric(y, x);
    if term != order[0] {
      TiedRowsAgree(order[1..], a, b, term);
    }
  }
}
