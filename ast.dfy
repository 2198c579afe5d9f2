/** The Document AST the parser builds: immutable tagged variants and records. */
module Ast {

  datatype Option<+T> = None | Some(value: T)

  datatype OperationType = Query | Mutation | Subscription

  /** A type reference; `!` wraps the reference parsed before it. */
  datatype TypeReference =
    | NamedType(name: string)
    | ListType(elementType: TypeReference)
    | NonNullType(nullableType: TypeReference)

  /** Value literals.  Float keeps its lexeme: floating point is not modelled. */
  datatype Value =
    | Int(n: int)
    | Float(lexeme: string)
    | String(text: string)
    | Boolean(b: bool)
    | Null
    | Enum(symbol: string)
    | List(items: seq<Value>)
    | Object(fields: map<string, Value>)
    | Variable(name: string)

  datatype Argument = Argument(name: string, value: Value)

  datatype Directive = Directive(name: string, arguments: seq<Argument>)

  /** `variable` is the Variable value parsed after `$`; the default value is
      never parsed, so it is always None. */
  datatype VariableDefinition =
    VariableDefinition(variable: Value, typ: TypeReference, defaultValue: Option<Value>, directives: seq<Directive>)

  datatype Selection =
    | Field(alias: Option<string>, name: string, arguments: seq<Argument>,
            selectionSet: seq<Selection>, directives: seq<Directive>)
    | FragmentSpread(name: string, directives: seq<Directive>)
    | InlineFragment(typeCondition: string, selectionSet: seq<Selection>, directives: seq<Directive>)

  datatype OperationDefinition =
    OperationDefinition(operationType: OperationType, name: Option<string>,
                        variableDefinition: seq<VariableDefinition>,
                        directives: seq<Directive>, selectionSet: seq<Selection>)

  datatype FragmentDefinition =
    FragmentDefinition(name: string, typeCondition: string,
                       selectionSet: seq<Selection>, directives: seq<Directive>)

  datatype Definition =
    | Operation(operation: OperationDefinition)
    | Fragment(fragment: FragmentDefinition)

  datatype Document = Document(definitions: seq<Definition>)

  /** No Variable occurs anywhere inside the value. */
  predicate NoVariables(v: Value) {
    match v
    case Variable(_) => false
    case List(items) => forall i :: 0 <= i < |items| ==> NoVariables(items[i])
    case Object(fields) => forall k :: k in fields ==> NoVariables(fields[k])
    case _ => true
  }

  /** No Variable occurs in any argument of any of the directives. */
  predicate ConstDirectives(ds: seq<Directive>) {
    forall i, j :: 0 <= i < |ds| && 0 <= j < |ds[i].arguments| ==> NoVariables(ds[i].arguments[j].value)
  }
}

/** Parse failures.  Every failure is fatal: the first one ends the parse. */
module Results {
  import opened Tokens

  /** The grammar areas the parser rejects as not implemented. */
  datatype Unimplemented = TypeSystemExtension | TypeSystemDefinition | NonNameDefinition

  datatype ParseError =
    | ExpectedKind(expected: TokenKind, found: Token)
    | ExpectedKeyword(keyword: string, found: Token)
    | Unexpected(token: Token)
    | IntConversion(text: string)
    | NotImplemented(what: Unimplemented)

  datatype Result<+T> = Ok(value: T) | Err(error: ParseError) {
    predicate IsFailure() { Err? }
    function PropagateFailure<U>(): Result<U> requires Err? { Err(error) }
    function Extract(): T requires Ok? { value }
  }

  /** A node together with the cursor position just after it. */
  datatype Parsed<+T> = Parsed(node: T, next: nat)
}
