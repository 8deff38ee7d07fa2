/**
  The segment compiler: which rules the validator accepts, the SQL condition that one rule is
  compiled to, and the proof of which accepted rules compile.
*/
module SegmentCompiler {
  import opened Wrappers
  import opened Sql
  import opened AttributeTypes
  import Like

  // ----- Rules -----

  datatype FieldSource = Contact | Engagement | Tag | Attribute | OtherSource(name: string)

  datatype Operator =
    | OpEq | OpNe | OpContains | OpStarts | OpEnds | OpIn | OpNin | OpExists
    | OpGt | OpGte | OpLt | OpLte | OpBetween | OpHasTag | OpOther(name: string)

  datatype Rule = Rule(groupIndex: int, source: FieldSource, fieldKey: string, operator: Operator, value: Json)

  datatype AttributeSpec = AttributeSpec(attributeId: int, dataType: DataType, enumValues: seq<string>)

  datatype MatchType = MatchAll | MatchAny

  /** What a compilation depends on besides the rules. */
  datatype Context = Context(
    organizationId: int,
    attributes: map<string, AttributeSpec>,
    parsers: Parsers,
    refusesNull: bool)

  datatype FieldType = TypeStr | TypeBool | TypeDt

  const CONTACT_FIELDS: map<string, (Column, FieldType)> :=
    map["full_name" := (FullName, TypeStr), "first_name" := (FirstName, TypeStr), "last_name" := (LastName, TypeStr),
        "email" := (Email, TypeStr), "phone_e164" := (PhoneE164, TypeStr), "wa_id" := (WaId, TypeStr),
        "country_code" := (CountryCode, TypeStr), "locale" := (Locale, TypeStr),
        "opt_in_status" := (OptInStatus, TypeStr), "source" := (Source, TypeStr),
        "is_active_on_wa" := (IsActiveOnWa, TypeBool), "created_at" := (CreatedAt, TypeDt)]

  const ENGAGEMENT_FIELDS: map<string, (Column, FieldType)> :=
    map["last_inbound_at" := (LastInboundAt, TypeDt), "last_outbound_at" := (LastOutboundAt, TypeDt),
        "last_contacted_at" := (LastContactedAt, TypeDt)]

  function OpsOfField(t: FieldType): set<Operator> {
    match t
    case TypeStr => {OpEq, OpNe, OpContains, OpStarts, OpEnds, OpIn, OpNin, OpExists}
    case TypeBool => {OpEq, OpExists}
    case TypeDt => {OpEq, OpNe, OpGt, OpGte, OpLt, OpLte, OpBetween, OpExists}
  }

  const TAG_OPS: set<Operator> := {OpHasTag, OpIn, OpNin}

  function OpsOfAttribute(t: DataType): set<Operator> {
    match t
    case TString => OpsOfField(TypeStr)
    case TEnum => {OpEq, OpNe, OpIn, OpNin, OpExists}
    case TNumber => {OpEq, OpNe, OpGt, OpGte, OpLt, OpLte, OpBetween, OpIn, OpNin, OpExists}
    case TDatetime => OpsOfField(TypeDt)
    case TBoolean => OpsOfField(TypeBool)
  }

  datatype Error =
    | InvalidRule              // the rule is refused with a validation error
    | NoSuchAttribute          // a lookup that has no entry
    | NotUnpackable            // a list, or a pair, was needed
    | NoSuchOperator
    | NotALiteral              // a list where one value was needed
    | Refused(error: BuildError)

  function ColumnFor(source: FieldSource, key: string): Result<(Column, FieldType), Error> {
    var table := if source == Contact then CONTACT_FIELDS else ENGAGEMENT_FIELDS;
    if key in table then Ok(table[key]) else Err(InvalidRule)
  }

  function AsLiteral(value: Json): Result<Value, Error> {
    match value
    case JNull => Ok(VNull)
    case JBool(b) => Ok(VBool(b))
    case JNum(r) => Ok(VNum(r))
    case JStr(s) => Ok(VStr(s))
    case JTime(t) => Ok(VTime(t))
    case JList(_) => Err(NotALiteral)
  }

  /** A datetime field parses texts and a boolean field takes booleans only; anything else is passed on. */
  function Coerce(p: Parsers, value: Json, t: FieldType): Result<Json, Error> {
    if t == TypeDt && value.JStr? then
      match p.isoTime(value.s)
      case Some(time) => Ok(JTime(time))
      case None => Err(InvalidRule)
    else if t == TypeBool && !value.JBool? then Err(InvalidRule)
    else Ok(value)
  }

  function CoerceAttribute(p: Parsers, spec: AttributeSpec, value: Json): Result<Value, Error> {
    match CoerceValue(p, spec.dataType, value, spec.enumValues)
    case Ok(v) => Ok(v)
    case Err(_) => Err(InvalidRule)
  }

  // ----- Compilation of one rule -----

  /** How a rule's literal is read: as a field of a given type or as a custom attribute. */
  datatype Reading = AsField(t: FieldType) | AsAttribute(spec: AttributeSpec)

  /** The coercion on its own, as the validator does it: a list may get through. */
  function Check(p: Parsers, reading: Reading, value: Json): Result<(), Error> {
    match reading
    case AsField(t) => (match Coerce(p, value, t) case Ok(_) => Ok(()) case Err(e) => Err(e))
    case AsAttribute(spec) => (match CoerceAttribute(p, spec, value) case Ok(_) => Ok(()) case Err(e) => Err(e))
  }

  /** The value that a literal is compared as. */
  function Read(p: Parsers, reading: Reading, value: Json): Result<Value, Error> {
    match reading
    case AsField(t) => (match Coerce(p, value, t) case Ok(coerced) => AsLiteral(coerced) case Err(e) => Err(e))
    case AsAttribute(spec) => CoerceAttribute(p, spec, value)
  }

  /** The text that a literal puts into a LIKE pattern: its own, or what it is written out as. */
  function SearchText(p: Parsers, value: Json): string {
    if value.JStr? then value.s else p.formatted(value)
  }

  function ReadAll(p: Parsers, reading: Reading, items: seq<Json>): Result<seq<Value>, Error> {
    if items == [] then Ok([])
    else match Read(p, reading, items[0])
      case Err(e) => Err(e)
      case Ok(v) => match ReadAll(p, reading, items[1..])
        case Err(e) => Err(e)
        case Ok(vs) => Ok([v] + vs)
  }

  function Truthy(value: Json): bool {
    match value
    case JNull => false
    case JBool(b) => b
    case JNum(r) => r != 0.0
    case JStr(s) => s != ""
    case JTime(_) => true
    case JList(items) => items != []
  }

  lemma TruthyExact(value: Json)
    ensures Truthy(value) <==> value !in {JNull, JBool(false), JNum(0.0), JStr(""), JList([])}
  {}

  function SearchKind(op: Operator): Option<Like.Search> {
    match op
    case OpContains => Some(Like.Contains)
    case OpStarts => Some(Like.Starts)
    case OpEnds => Some(Like.Ends)
    case _ => None
  }

  function Comparison(op: Operator): Option<CmpOp> {
    match op
    case OpEq => Some(Eq)
    case OpNe => Some(Ne)
    case OpGt => Some(Gt)
    case OpGte => Some(Ge)
    case OpLt => Some(Lt)
    case OpLte => Some(Le)
    case _ => None
  }

  function Lift(r: Result<Cond, BuildError>): Result<Cond, Error> {
    match r
    case Ok(c) => Ok(c)
    case Err(e) => Err(Refused(e))
  }

  function TagCondition(organizationId: int, operator: Operator, value: Json): Result<Cond, Error> {
    var names := if operator == OpHasTag then (match AsLiteral(value) case Ok(v) => Ok([v]) case Err(e) => Err(e))
                 else if value.JList? then TagNames(value.items)
                 else Err(NotUnpackable);
    if names.Err? then Err(names.error)
    else
      var member := InSelect(Id, ContactTagsJoinTags,
                             And([Cmp(Eq, Col(OrganizationId), VInt(organizationId)),
                                  InList(Col(TagName), names.value),
                                  IsNull(DeletedAt)]));
      Ok(if operator == OpNin then Not(member) else member)
  }

  function TagNames(items: seq<Json>): Result<seq<Value>, Error> {
    if items == [] then Ok([])
    else match AsLiteral(items[0])
      case Err(e) => Err(e)
      case Ok(v) => match TagNames(items[1..])
        case Err(e) => Err(e)
        case Ok(vs) => Ok([v] + vs)
  }

  /** The condition on the attribute's own column inside the membership subquery. */
  function AttributePredicate(ctx: Context, spec: AttributeSpec, operator: Operator, value: Json): Result<Cond, Error> {
    var column := ValueColumn(spec.dataType);
    var reading := AsAttribute(spec);
    if operator == OpBetween then
      if !value.JList? || |value.items| != 2 then Err(NotUnpackable)
      else match ReadAll(ctx.parsers, reading, value.items)
        case Err(e) => Err(e)
        case Ok(vs) => if |vs| == 2 then Ok(Between(Col(column), vs[0], vs[1])) else Err(NotUnpackable)
    else if operator == OpIn || operator == OpNin then
      if !value.JList? then Err(NotUnpackable)
      else match ReadAll(ctx.parsers, reading, value.items)
        case Err(e) => Err(e)
        case Ok(vs) => Ok(InList(Col(column), vs))
    else match CoerceAttribute(ctx.parsers, spec, value)
      case Err(e) => Err(e)
      case Ok(target) =>
        if SearchKind(operator).Some? then
          Ok(LikePattern(column, true, Like.Pattern(SearchKind(operator).value, SearchText(ctx.parsers, value))))
        else if operator == OpNe then Lift(Built(Eq, Col(column), target, ctx.refusesNull)) // negated as a membership
        else if Comparison(operator).Some? then
          Lift(Built(Comparison(operator).value, Col(column), target, ctx.refusesNull))
        else Err(NoSuchOperator)
  }

  function AttributeCondition(ctx: Context, spec: AttributeSpec, operator: Operator, value: Json): Result<Cond, Error> {
    var column := ValueColumn(spec.dataType);
    var base := Cmp(Eq, Col(AttributeId), VInt(spec.attributeId));
    if operator == OpExists then
      var member := InSelect(Id, ContactAttributeValues, And([base, IsNotNull(column)]));
      Ok(if Truthy(value) then member else Not(member))
    else match AttributePredicate(ctx, spec, operator, value)
      case Err(e) => Err(e)
      case Ok(predicate_) =>
        var member := InSelect(Id, ContactAttributeValues, And([base, predicate_]));
        Ok(if operator == OpNe || operator == OpNin then Not(member) else member)
  }

  function FieldCondition(ctx: Context, column: Column, t: FieldType, operator: Operator, value: Json)
    : Result<Cond, Error>
  {
    var reading := AsField(t);
    if operator == OpExists then Ok(if Truthy(value) then IsNotNull(column) else IsNull(column))
    else if operator == OpBetween then
      if !value.JList? || |value.items| != 2 then Err(NotUnpackable)
      else match ReadAll(ctx.parsers, reading, value.items)
        case Err(e) => Err(e)
        case Ok(vs) => if |vs| == 2 then Ok(Between(Col(column), vs[0], vs[1])) else Err(NotUnpackable)
    else if operator == OpIn || operator == OpNin then
      if !value.JList? then Err(NotUnpackable)
      else match ReadAll(ctx.parsers, reading, value.items)
        case Err(e) => Err(e)
        case Ok(vs) => Ok(if operator == OpNin then NotInList(Col(column), vs) else InList(Col(column), vs))
    else match Coerce(ctx.parsers, value, t)
      case Err(e) => Err(e)
      case Ok(coerced) =>
        if SearchKind(operator).Some? then
          Ok(LikePattern(column, true, Like.Pattern(SearchKind(operator).value, SearchText(ctx.parsers, coerced))))
        else match AsLiteral(coerced)
          case Err(e) => Err(e)
          case Ok(literal) => // whatever is left is taken for `lte`
            var op := if Comparison(operator).Some? then Comparison(operator).value else Le;
            Lift(Built(op, Col(column), literal, ctx.refusesNull))
  }

  function RuleCondition(ctx: Context, rule: Rule): Result<Cond, Error> {
    if rule.source == Tag then TagCondition(ctx.organizationId, rule.operator, rule.value)
    else if rule.source == Attribute then
      if rule.fieldKey in ctx.attributes then
        AttributeCondition(ctx, ctx.attributes[rule.fieldKey], rule.operator, rule.value)
      else Err(NoSuchAttribute)
    else match ColumnFor(rule.source, rule.fieldKey)
      case Err(e) => Err(e)
      case Ok((column, t)) => FieldCondition(ctx, column, t, rule.operator, rule.value)
  }

  // ----- Validation -----

  predicate Checked(p: Parsers, reading: Reading, items: seq<Json>) {
    forall i :: 0 <= i < |items| ==> Check(p, reading, items[i]).Ok?
  }

  /** The shape of a rule's literal that its operator asks for. */
  predicate ShapeAccepted(p: Parsers, reading: Reading, operator: Operator, value: Json) {
    match operator
    case OpExists => value.JBool?
    case OpBetween => value.JList? && |value.items| == 2 && Checked(p, reading, value.items)
    case OpIn => value.JList? && value.items != [] && (reading.AsAttribute? ==> Checked(p, reading, value.items))
    case OpNin => value.JList? && value.items != [] && (reading.AsAttribute? ==> Checked(p, reading, value.items))
    case _ => Check(p, reading, value).Ok?
  }

  predicate Accepted(ctx: Context, rule: Rule) {
    match rule.source
    case Attribute =>
      && rule.fieldKey in ctx.attributes
      && var spec := ctx.attributes[rule.fieldKey];
      && rule.operator in OpsOfAttribute(spec.dataType)
      && ShapeAccepted(ctx.parsers, AsAttribute(spec), rule.operator, rule.value)
    case Tag =>
      && rule.operator in TAG_OPS
      && (rule.operator == OpHasTag ==> rule.value.JStr?)
      && (rule.operator == OpIn || rule.operator == OpNin ==> rule.value.JList?)
    case OtherSource(_) => false
    case _ =>
      && ColumnFor(rule.source, rule.fieldKey).Ok?
      && var t := ColumnFor(rule.source, rule.fieldKey).value.1;
      && rule.operator in OpsOfField(t)
      && ShapeAccepted(ctx.parsers, AsField(t), rule.operator, rule.value)
  }

  // ----- What is accepted, said without the tables -----

  /** The fields that a rule may name, by their columns. */
  predicate FieldNamed(source: FieldSource, key: string, column: Column, t: FieldType) {
    match column
    case FullName => source == Contact && key == "full_name" && t == TypeStr
    case FirstName => source == Contact && key == "first_name" && t == TypeStr
    case LastName => source == Contact && key == "last_name" && t == TypeStr
    case Email => source == Contact && key == "email" && t == TypeStr
    case PhoneE164 => source == Contact && key == "phone_e164" && t == TypeStr
    case WaId => source == Contact && key == "wa_id" && t == TypeStr
    case CountryCode => source == Contact && key == "country_code" && t == TypeStr
    case Locale => source == Contact && key == "locale" && t == TypeStr
    case OptInStatus => source == Contact && key == "opt_in_status" && t == TypeStr
    case Source => source == Contact && key == "source" && t == TypeStr
    case IsActiveOnWa => source == Contact && key == "is_active_on_wa" && t == TypeBool
    case CreatedAt => source == Contact && key == "created_at" && t == TypeDt
    case LastInboundAt => source == Engagement && key == "last_inbound_at" && t == TypeDt
    case LastOutboundAt => source == Engagement && key == "last_outbound_at" && t == TypeDt
    case LastContactedAt => source == Engagement && key == "last_contacted_at" && t == TypeDt
    case _ => false
  }

  lemma KeyIsNamed(source: FieldSource, key: string)
    requires (source == Contact || source == Engagement) && ColumnFor(source, key).Ok?
    ensures FieldNamed(source, key, ColumnFor(source, key).value.0, ColumnFor(source, key).value.1)
  {}

  lemma NamedIsKey(source: FieldSource, key: string, column: Column, t: FieldType)
    requires FieldNamed(source, key, column, t)
    ensures ColumnFor(source, key).Ok?
  {}

  /** The length and the first letter of a column's key tell it from the others of its source. */
  function KeyShape(column: Column): (int, char) {
    match column
    case FullName => (9, 'f')
    case FirstName => (10, 'f')
    case LastName => (9, 'l')
    case Email => (5, 'e')
    case PhoneE164 => (10, 'p')
    case WaId => (5, 'w')
    case CountryCode => (12, 'c')
    case Locale => (6, 'l')
    case OptInStatus => (13, 'o')
    case Source => (6, 's')
    case IsActiveOnWa => (15, 'i')
    case CreatedAt => (10, 'c')
    case LastInboundAt => (15, 'l')
    case LastOutboundAt => (16, 'l')
    case LastContactedAt => (17, 'l')
    case _ => (0, ' ')
  }

  lemma ShapeOfKey(source: FieldSource, key: string, column: Column, t: FieldType)
    requires FieldNamed(source, key, column, t)
    ensures key != "" && (|key|, key[0]) == KeyShape(column)
  {}

  lemma OneName(source: FieldSource, key: string, a: Column, b: Column, t: FieldType, u: FieldType)
    requires FieldNamed(source, key, a, t) && FieldNamed(source, key, b, u)
    ensures a == b && t == u
  {
    ShapeOfKey(source, key, a, t);
    ShapeOfKey(source, key, b, u);
    assert KeyShape(a) == KeyShape(b) ==> a == b;
  }

  lemma FieldNamedExact(source: FieldSource, key: string)
    requires source == Contact || source == Engagement
    ensures forall column, t :: FieldNamed(source, key, column, t) <==> ColumnFor(source, key) == Ok((column, t))
  {
    forall column, t | FieldNamed(source, key, column, t) ensures ColumnFor(source, key) == Ok((column, t)) {
      NamedIsKey(source, key, column, t);
      KeyIsNamed(source, key);
      var found := ColumnFor(source, key).value;
      OneName(source, key, column, found.0, t, found.1);
    }
    if ColumnFor(source, key).Ok? {
      KeyIsNamed(source, key);
    }
  }

  /** The types of field that an operator can be used on. */
  predicate FieldAllows(op: Operator, t: FieldType) {
    match op
    case OpExists => true
    case OpEq => true
    case OpNe => t != TypeBool
    case OpContains => t == TypeStr
    case OpStarts => t == TypeStr
    case OpEnds => t == TypeStr
    case OpIn => t == TypeStr
    case OpNin => t == TypeStr
    case OpGt => t == TypeDt
    case OpGte => t == TypeDt
    case OpLt => t == TypeDt
    case OpLte => t == TypeDt
    case OpBetween => t == TypeDt
    case OpHasTag => false
    case OpOther(_) => false
  }

  /** The types of attribute that an operator can be used on. */
  predicate AttributeAllows(op: Operator, t: DataType) {
    match op
    case OpExists => true
    case OpEq => true
    case OpNe => t != TBoolean
    case OpContains => t == TString
    case OpStarts => t == TString
    case OpEnds => t == TString
    case OpIn => t == TString || t == TEnum || t == TNumber
    case OpNin => t == TString || t == TEnum || t == TNumber
    case OpGt => t == TNumber || t == TDatetime
    case OpGte => t == TNumber || t == TDatetime
    case OpLt => t == TNumber || t == TDatetime
    case OpLte => t == TNumber || t == TDatetime
    case OpBetween => t == TNumber || t == TDatetime
    case OpHasTag => false
    case OpOther(_) => false
  }

  lemma OperatorsExact(op: Operator)
    ensures forall t :: op in OpsOfField(t) <==> FieldAllows(op, t)
    ensures forall t :: op in OpsOfAttribute(t) <==> AttributeAllows(op, t)
  {}

  /** How a literal is read for a field: as itself, and for a datetime field a text as the time it tells. */
  predicate FieldReads(p: Parsers, t: FieldType, value: Json, v: Value) {
    && (t == TypeBool ==> v.VBool?)
    && match v
       case VNull => value == JNull
       case VBool(b) => value == JBool(b)
       case VNum(r) => value == JNum(r)
       case VStr(s) => value == JStr(s) && t != TypeDt
       case VTime(x) => value == JTime(x) || (t == TypeDt && value.JStr? && p.isoTime(value.s) == Some(x))
       case VInt(_) => false
  }

  ghost predicate LiteralReads(p: Parsers, reading: Reading, value: Json, v: Value) {
    match reading
    case AsField(t) => FieldReads(p, t, value, v)
    case AsAttribute(spec) => Reads(p, spec.dataType, spec.enumValues, value, v)
  }

  /** What the validator lets through: a literal that can be read, and for a text or datetime field any list. */
  ghost predicate Passable(p: Parsers, reading: Reading, value: Json) {
    (exists v :: LiteralReads(p, reading, value, v)) || (reading.AsField? && reading.t != TypeBool && value.JList?)
  }

  /**
    A column literal is read as the one value that it stands for and refused exactly when there is
    none; the validator in addition lets lists pass.
  */
  lemma LiteralExact(p: Parsers, reading: Reading, value: Json)
    ensures forall v :: Read(p, reading, value) == Ok(v) <==> LiteralReads(p, reading, value, v)
    ensures Read(p, reading, value).Err? <==> forall v :: !LiteralReads(p, reading, value, v)
    ensures Check(p, reading, value).Ok? <==> Passable(p, reading, value)
  {
    if reading.AsAttribute? {
      CoercedExact(p, reading.spec.dataType, value, reading.spec.enumValues);
    }
    if Read(p, reading, value).Ok? {
      assert LiteralReads(p, reading, value, Read(p, reading, value).value);
    }
  }

  ghost predicate AllPassable(p: Parsers, reading: Reading, items: seq<Json>) {
    forall item :: item in items ==> Passable(p, reading, item)
  }

  /** The literal that an operator asks for. */
  ghost predicate LiteralAccepted(p: Parsers, reading: Reading, op: Operator, value: Json) {
    match op
    case OpExists => value == JBool(true) || value == JBool(false)
    case OpBetween => value.JList? && |value.items| == 2 && AllPassable(p, reading, value.items)
    case OpIn => value.JList? && |value.items| > 0 && (reading.AsAttribute? ==> AllPassable(p, reading, value.items))
    case OpNin => value.JList? && |value.items| > 0 && (reading.AsAttribute? ==> AllPassable(p, reading, value.items))
    case _ => Passable(p, reading, value)
  }

  /** Which rules a segment may have. */
  ghost predicate Acceptable(ctx: Context, rule: Rule) {
    match rule.source
    case Tag =>
      match rule.operator {
        case OpHasTag => rule.value.JStr?
        case OpIn => rule.value.JList?
        case OpNin => rule.value.JList?
        case _ => false
      }
    case Attribute =>
      && rule.fieldKey in ctx.attributes
      && var spec := ctx.attributes[rule.fieldKey];
      && AttributeAllows(rule.operator, spec.dataType)
      && LiteralAccepted(ctx.parsers, AsAttribute(spec), rule.operator, rule.value)
    case OtherSource(_) => false
    case _ =>
      exists column, t :: && FieldNamed(rule.source, rule.fieldKey, column, t)
                          && FieldAllows(rule.operator, t)
                          && LiteralAccepted(ctx.parsers, AsField(t), rule.operator, rule.value)
  }

  lemma CheckedExact(p: Parsers, reading: Reading, items: seq<Json>)
    ensures Checked(p, reading, items) <==> AllPassable(p, reading, items)
  {
    forall item ensures Check(p, reading, item).Ok? <==> Passable(p, reading, item) {
      LiteralExact(p, reading, item);
    }
    if Checked(p, reading, items) {
      forall item | item in items ensures Passable(p, reading, item) {
        var i :| 0 <= i < |items| && items[i] == item;
        assert Check(p, reading, items[i]).Ok?;
      }
    }
  }

  lemma ShapeExact(p: Parsers, reading: Reading, op: Operator, value: Json)
    ensures ShapeAccepted(p, reading, op, value) <==> LiteralAccepted(p, reading, op, value)
  {
    LiteralExact(p, reading, value);
    if value.JList? {
      CheckedExact(p, reading, value.items);
    }
  }

  /** The accepted rules, from the tables, are the acceptable ones. */
  lemma AcceptedExact(ctx: Context, rule: Rule)
    ensures Accepted(ctx, rule) <==> Acceptable(ctx, rule)
  {
    OperatorsExact(rule.operator);
    match rule.source {
      case Tag =>
      case Attribute =>
        if rule.fieldKey in ctx.attributes {
          ShapeExact(ctx.parsers, AsAttribute(ctx.attributes[rule.fieldKey]), rule.operator, rule.value);
        }
      case OtherSource(_) =>
      case _ =>
        FieldNamedExact(rule.source, rule.fieldKey);
        forall t ensures ShapeAccepted(ctx.parsers, AsField(t), rule.operator, rule.value) <==>
                         LiteralAccepted(ctx.parsers, AsField(t), rule.operator, rule.value)
        {
          ShapeExact(ctx.parsers, AsField(t), rule.operator, rule.value);
        }
    }
  }

  method CheckEach(p: Parsers, reading: Reading, items: seq<Json>) returns (r: Result<(), Error>)
    ensures r.Ok? <==> Checked(p, reading, items)
    ensures r.Err? ==> r.error == InvalidRule
    ensures r.Err? ==>
              exists i :: 0 <= i < |items| && Check(p, reading, items[i]) == r && Checked(p, reading, items[..i])
  {
    for i := 0 to |items|
      invariant Checked(p, reading, items[..i])
    {
      r := Check(p, reading, items[i]);
      if r.Err? {
        return;
      }
      assert items[..i + 1] == items[..i] + [items[i]];
    }
    assert items[..|items|] == items;
    return Ok(());
  }

  /** `_validate_attribute_rule` after the lookup, and the same checks for a column. */
  method ValidateLiteral(p: Parsers, reading: Reading, operator: Operator, value: Json) returns (r: Result<(), Error>)
    ensures r.Ok? <==> ShapeAccepted(p, reading, operator, value)
    ensures r.Err? ==> r.error == InvalidRule
  {
    if operator == OpExists {
      return if value.JBool? then Ok(()) else Err(InvalidRule);
    }
    if operator == OpBetween {
      if !value.JList? || |value.items| != 2 {
        return Err(InvalidRule);
      }
      r := CheckEach(p, reading, value.items);
      return;
    }
    if operator == OpIn || operator == OpNin {
      if !value.JList? || value.items == [] {
        return Err(InvalidRule);
      }
      if reading.AsAttribute? {
        r := CheckEach(p, reading, value.items);
        return;
      }
      return Ok(());
    }
    return Check(p, reading, value);
  }

  method ValidateRule(ctx: Context, rule: Rule) returns (r: Result<(), Error>)
    ensures r.Ok? <==> Accepted(ctx, rule)
    ensures r.Ok? <==> Acceptable(ctx, rule)
    ensures r.Err? ==> r.error == InvalidRule
  {
    AcceptedExact(ctx, rule);
    if rule.source == Attribute {
      if rule.fieldKey !in ctx.attributes {
        return Err(InvalidRule);
      }
      var spec := ctx.attributes[rule.fieldKey];
      if rule.operator !in OpsOfAttribute(spec.dataType) {
        return Err(InvalidRule);
      }
      r := ValidateLiteral(ctx.parsers, AsAttribute(spec), rule.operator, rule.value);
      return;
    }
    if rule.source == Tag {
      if rule.operator !in TAG_OPS
         || (rule.operator == OpHasTag && !rule.value.JStr?)
         || ((rule.operator == OpIn || rule.operator == OpNin) && !rule.value.JList?) {
        return Err(InvalidRule);
      }
      return Ok(());
    }
    if rule.source != Contact && rule.source != Engagement {
      return Err(InvalidRule);
    }
    var found := ColumnFor(rule.source, rule.fieldKey);
    if found.Err? {
      return Err(found.error);
    }
    var t := found.value.1;
    if rule.operator !in OpsOfField(t) {
      return Err(InvalidRule);
    }
    r := ValidateLiteral(ctx.parsers, AsField(t), rule.operator, rule.value);
  }

  // ----- Which accepted rules compile -----

  predicate TakesList(op: Operator) {
    op == OpBetween || op == OpIn || op == OpNin
  }

  predicate Ordering(op: Operator) {
    op == OpGt || op == OpGte || op == OpLt || op == OpLte
  }

  /**
    What the validator leaves to the compiler: no list where one value is compared, no ordering with a
    refused None.
  */
  predicate Compiles(ctx: Context, rule: Rule) {
    var value := rule.value;
    if rule.operator == OpExists || SearchKind(rule.operator).Some? then true
    else if TakesList(rule.operator) && value.JList? then
      forall item :: item in value.items ==> !item.JList?
    else !value.JList? && (Ordering(rule.operator) && value.JNull? ==> !ctx.refusesNull)
  }

  lemma {:induction false} ReadAllItems(p: Parsers, reading: Reading, items: seq<Json>)
    ensures ReadAll(p, reading, items).Ok? ==>
              var vs := ReadAll(p, reading, items).value;
              |vs| == |items| && forall i :: 0 <= i < |items| ==> Read(p, reading, items[i]) == Ok(vs[i])
    ensures ReadAll(p, reading, items).Err? ==>
              exists i :: 0 <= i < |items| && Read(p, reading, items[i]) == Err(ReadAll(p, reading, items).error)
  {
    if items != [] {
      var rest := items[1..];
      ReadAllItems(p, reading, rest);
      assert forall i :: 0 < i < |items| ==> items[i] == rest[i - 1];
      if Read(p, reading, items[0]).Ok? && ReadAll(p, reading, rest).Err? {
        var i :| 0 <= i < |rest| && Read(p, reading, rest[i]) == Err(ReadAll(p, reading, rest).error);
        assert items[i + 1] == rest[i];
      }
    }
  }

  /** A list of accepted literals is read unless one of them is a list, and nothing else is in the way. */
  lemma AcceptedItemsRead(p: Parsers, reading: Reading, items: seq<Json>)
    requires Checked(p, reading, items)
    ensures ReadAll(p, reading, items).Ok? <==> forall item :: item in items ==> !item.JList?
    ensures ReadAll(p, reading, items).Err? ==> ReadAll(p, reading, items).error == NotALiteral
  {
    ReadAllItems(p, reading, items);
    if ReadAll(p, reading, items).Ok? {
      forall item | item in items ensures !item.JList? {
        var i :| 0 <= i < |items| && items[i] == item;
        assert Read(p, reading, items[i]).Ok?;
      }
    }
  }

  lemma {:induction false} TagNamesItems(items: seq<Json>)
    ensures TagNames(items).Ok? <==> forall item :: item in items ==> !item.JList?
    ensures TagNames(items).Err? ==> TagNames(items).error == NotALiteral
    ensures TagNames(items).Ok? ==>
              var names := TagNames(items).value;
              |names| == |items| && forall i :: 0 <= i < |items| ==> AsLiteral(items[i]) == Ok(names[i])
  {
    if items != [] {
      var rest := items[1..];
      TagNamesItems(rest);
      assert forall item :: item in items <==> item == items[0] || item in rest;
      if TagNames(items).Ok? {
        var names := TagNames(items).value;
        assert names == [names[0]] + TagNames(rest).value;
        forall i | 0 <= i < |items| ensures AsLiteral(items[i]) == Ok(names[i]) {
          if i > 0 {
            assert items[i] == rest[i - 1] && names[i] == TagNames(rest).value[i - 1];
          }
        }
      }
    }
  }

  /** How compilation may fail: never at a lookup, an unpacking, the dispatch or the second coercion. */
  ghost predicate CompilesOrNotALiteral(r: Result<Cond, Error>, compiles: bool) {
    && (r.Ok? <==> compiles)
    && (r.Err? ==> r.error == NotALiteral || r.error == Refused(NullOperand))
  }

  /** A list operator reads its list and nothing else can go wrong. */
  lemma FieldListCompiled(ctx: Context, column: Column, t: FieldType, operator: Operator, value: Json)
    requires TakesList(operator) && value.JList? && (operator == OpBetween ==> |value.items| == 2)
    ensures var read := ReadAll(ctx.parsers, AsField(t), value.items);
            var compiled := FieldCondition(ctx, column, t, operator, value);
            if read.Ok? then compiled.Ok? else compiled == Err(read.error)
  {
    ReadAllItems(ctx.parsers, AsField(t), value.items);
  }

  lemma FieldListProgress(ctx: Context, column: Column, t: FieldType, rule: Rule)
    requires TakesList(rule.operator) && rule.operator in OpsOfField(t)
    requires ShapeAccepted(ctx.parsers, AsField(t), rule.operator, rule.value)
    ensures CompilesOrNotALiteral(FieldCondition(ctx, column, t, rule.operator, rule.value), Compiles(ctx, rule))
  {
    AcceptedItemsRead(ctx.parsers, AsField(t), rule.value.items);
    FieldListCompiled(ctx, column, t, rule.operator, rule.value);
  }

  lemma FieldSingleProgress(ctx: Context, column: Column, t: FieldType, rule: Rule)
    requires !TakesList(rule.operator) && rule.operator in OpsOfField(t)
    requires ShapeAccepted(ctx.parsers, AsField(t), rule.operator, rule.value)
    ensures CompilesOrNotALiteral(FieldCondition(ctx, column, t, rule.operator, rule.value), Compiles(ctx, rule))
  {}

  lemma FieldProgress(ctx: Context, column: Column, t: FieldType, rule: Rule)
    requires rule.operator in OpsOfField(t) && ShapeAccepted(ctx.parsers, AsField(t), rule.operator, rule.value)
    ensures CompilesOrNotALiteral(FieldCondition(ctx, column, t, rule.operator, rule.value), Compiles(ctx, rule))
  {
    if TakesList(rule.operator) {
      FieldListProgress(ctx, column, t, rule);
    } else {
      FieldSingleProgress(ctx, column, t, rule);
    }
  }

  lemma AttributeProgress(ctx: Context, spec: AttributeSpec, rule: Rule)
    requires rule.operator in OpsOfAttribute(spec.dataType)
    requires ShapeAccepted(ctx.parsers, AsAttribute(spec), rule.operator, rule.value)
    ensures CompilesOrNotALiteral(AttributeCondition(ctx, spec, rule.operator, rule.value), Compiles(ctx, rule))
  {
    if TakesList(rule.operator) {
      AcceptedItemsRead(ctx.parsers, AsAttribute(spec), rule.value.items);
      ReadAllItems(ctx.parsers, AsAttribute(spec), rule.value.items);
    }
  }

  /**
    Progress: of an accepted rule every lookup, unpacking, dispatch and second coercion succeeds. It
    compiles unless a list stands where one value is compared or the builder refuses a null.
  */
  lemma RuleProgress(ctx: Context, rule: Rule)
    requires Accepted(ctx, rule)
    ensures CompilesOrNotALiteral(RuleCondition(ctx, rule), Compiles(ctx, rule))
  {
    match rule.source {
      case Tag =>
        if rule.value.JList? {
          TagNamesItems(rule.value.items);
        }
      case Attribute =>
        AttributeProgress(ctx, ctx.attributes[rule.fieldKey], rule);
      case OtherSource(_) =>
      case _ =>
        var (column, t) := ColumnFor(rule.source, rule.fieldKey).value;
        FieldProgress(ctx, column, t, rule);
    }
  }

  /** Non-null literals, and a list only where the operator takes one, always compile. */
  lemma PlainLiteralsCompile(ctx: Context, rule: Rule)
    requires Accepted(ctx, rule)
    requires var items := if TakesList(rule.operator) && rule.value.JList? then rule.value.items else [rule.value];
             forall item :: item in items ==> !item.JNull? && !item.JList?
    ensures RuleCondition(ctx, rule).Ok?
  {
    RuleProgress(ctx, rule);
    assert rule.value in [rule.value];
  }
}
