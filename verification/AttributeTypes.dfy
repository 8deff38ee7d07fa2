/** Typed custom attributes: which column holds a value, and how a JSON literal is read. */
module AttributeTypes {
  import opened Wrappers
  import opened Sql

  datatype Json =
    | JNull
    | JBool(b: bool)
    | JNum(r: real)
    | JStr(s: string)
    | JTime(t: int)          // a datetime that is already one
    | JList(items: seq<Json>)

  /** The text formats are foreign: what they accept, and as what, and how a literal is written out, are parameters. */
  datatype Parsers = Parsers(
    decimal: string -> Option<real>,
    isoTime: string -> Option<int>,
    formatted: Json -> string)

  datatype DataType = TString | TNumber | TDatetime | TBoolean | TEnum

  const MAX_STRING_LENGTH := 1024

  datatype AttributeValueError =
    | ExpectedString | TooLong | NotAllowed | ExpectedNumber | ExpectedDatetime | ExpectedBoolean

  function ValueColumn(dataType: DataType): Column {
    match dataType
    case TString => ValueString
    case TEnum => ValueString
    case TNumber => ValueNumber
    case TDatetime => ValueDatetime
    case TBoolean => ValueBoolean
  }

  /** The columns of the value table, by what they hold. */
  predicate HeldIn(column: Column, dataType: DataType) {
    match column
    case ValueString => dataType == TString || dataType == TEnum
    case ValueNumber => dataType == TNumber
    case ValueDatetime => dataType == TDatetime
    case ValueBoolean => dataType == TBoolean
    case _ => false
  }

  lemma ValueColumnExact(dataType: DataType)
    ensures forall column :: HeldIn(column, dataType) <==> column == ValueColumn(dataType)
  {}

  function CoerceValue(p: Parsers, dataType: DataType, value: Json, enumValues: seq<string>)
    : Result<Value, AttributeValueError>
  {
    if value.JNull? then Ok(VNull)
    else match dataType
      case TString =>
        if !value.JStr? then Err(ExpectedString)
        else if |value.s| > MAX_STRING_LENGTH then Err(TooLong)
        else Ok(VStr(value.s))
      case TEnum =>
        if !value.JStr? then Err(ExpectedString)
        else if value.s !in enumValues then Err(NotAllowed)
        else Ok(VStr(value.s))
      case TNumber =>
        if value.JNum? then Ok(VNum(value.r))
        else if !value.JStr? then Err(ExpectedNumber)
        else (match p.decimal(value.s)
              case Some(r) => Ok(VNum(r))
              case None => Err(ExpectedNumber))
      case TDatetime =>
        if value.JTime? then Ok(VTime(value.t))
        else if !value.JStr? then Err(ExpectedDatetime)
        else (match p.isoTime(value.s)
              case Some(t) => Ok(VTime(t))
              case None => Err(ExpectedDatetime))
      case TBoolean =>
        if !value.JBool? then Err(ExpectedBoolean) else Ok(VBool(value.b))
  }

  /** The values that an attribute may hold. */
  predicate Permitted(dataType: DataType, enumValues: seq<string>, v: Value) {
    match dataType
    case TString => v.VStr? && |v.s| <= 1024
    case TEnum => v.VStr? && v.s in enumValues
    case TNumber => v.VNum?
    case TDatetime => v.VTime?
    case TBoolean => v.VBool?
  }

  /** A literal stands for a value: itself, or what its text can be parsed to. */
  predicate StandsFor(p: Parsers, value: Json, v: Value) {
    match v
    case VStr(s) => value == JStr(s)
    case VNum(r) => value == JNum(r) || (value.JStr? && p.decimal(value.s) == Some(r))
    case VTime(t) => value == JTime(t) || (value.JStr? && p.isoTime(value.s) == Some(t))
    case VBool(b) => value == JBool(b)
    case _ => false
  }

  /** How a literal is read for an attribute: null as NULL, and otherwise as a permitted value that it stands for. */
  predicate Reads(p: Parsers, dataType: DataType, enumValues: seq<string>, value: Json, v: Value) {
    if value == JNull then v == VNull else Permitted(dataType, enumValues, v) && StandsFor(p, value, v)
  }

  /**
    Coercion gives NULL for None, and otherwise the one value that the literal stands for and the
    attribute may hold. It fails exactly when there is no such value.
  */
  lemma CoercedExact(p: Parsers, dataType: DataType, value: Json, enumValues: seq<string>)
    ensures forall v :: CoerceValue(p, dataType, value, enumValues) == Ok(v) <==>
                        Reads(p, dataType, enumValues, value, v)
    ensures CoerceValue(p, dataType, value, enumValues).Err? <==> forall v :: !Reads(p, dataType, enumValues, value, v)
  {
    var r := CoerceValue(p, dataType, value, enumValues);
    if r.Ok? {
      assert Reads(p, dataType, enumValues, value, r.value);
    }
  }
}
