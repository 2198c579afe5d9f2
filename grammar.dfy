/** The recursive-descent grammar as pure functions of the token sequence and
    the cursor position.  Each production returns the node it built and the
    position after it, or the first error.  Every production that succeeds
    has consumed at least one token: that is what makes the recursion, and
    the loops of `any` and `many`, terminate.

    The element parsers handed to `any` and `many` are closures in the
    source; here they are data (ElementParser), applied by ParseElement. */
module Grammar {
  import opened Tokens
  import opened Ast
  import opened Results
  import opened Cursor
  import Numbers

  /** The element parsers the source passes to `any` and `many`. */
  datatype ElementParser =
    | ValueLiteral(isConst: bool)         // parseValueLiteral with the flag bound
    | ArgumentParser(isConst: bool)       // parseArgument / parseConstArgument
    | VariableDefinitionParser
    | SelectionParser
    | DefinitionParser

  /** What an element parser produces. */
  datatype Element =
    | ValueElement(value: Value)
    | ArgumentElement(argument: Argument)
    | VariableDefinitionElement(variableDefinition: VariableDefinition)
    | SelectionElement(selection: Selection)
    | DefinitionElement(definition: Definition)

  predicate Fits(e: ElementParser, x: Element) {
    match e
    case ValueLiteral(_) => x.ValueElement?
    case ArgumentParser(_) => x.ArgumentElement?
    case VariableDefinitionParser => x.VariableDefinitionElement?
    case SelectionParser => x.SelectionElement?
    case DefinitionParser => x.DefinitionElement?
  }

  predicate AllFit(e: ElementParser, xs: seq<Element>) {
    forall i :: 0 <= i < |xs| ==> Fits(e, xs[i])
  }

  function ValuesOf(xs: seq<Element>): (vs: seq<Value>)
    requires forall i :: 0 <= i < |xs| ==> xs[i].ValueElement?
    ensures |vs| == |xs| && forall i :: 0 <= i < |xs| ==> vs[i] == xs[i].value
  {
    seq(|xs|, i requires 0 <= i < |xs| => xs[i].value)
  }

  function ArgumentsOf(xs: seq<Element>): (args: seq<Argument>)
    requires forall i :: 0 <= i < |xs| ==> xs[i].ArgumentElement?
    ensures |args| == |xs| && forall i :: 0 <= i < |xs| ==> args[i] == xs[i].argument
  {
    seq(|xs|, i requires 0 <= i < |xs| => xs[i].argument)
  }

  function VariableDefinitionsOf(xs: seq<Element>): (defs: seq<VariableDefinition>)
    requires forall i :: 0 <= i < |xs| ==> xs[i].VariableDefinitionElement?
    ensures |defs| == |xs| && forall i :: 0 <= i < |xs| ==> defs[i] == xs[i].variableDefinition
  {
    seq(|xs|, i requires 0 <= i < |xs| => xs[i].variableDefinition)
  }

  function SelectionsOf(xs: seq<Element>): (sels: seq<Selection>)
    requires forall i :: 0 <= i < |xs| ==> xs[i].SelectionElement?
    ensures |sels| == |xs| && forall i :: 0 <= i < |xs| ==> sels[i] == xs[i].selection
  {
    seq(|xs|, i requires 0 <= i < |xs| => xs[i].selection)
  }

  function DefinitionsOf(xs: seq<Element>): (defs: seq<Definition>)
    requires forall i :: 0 <= i < |xs| ==> xs[i].DefinitionElement?
    ensures |defs| == |xs| && forall i :: 0 <= i < |xs| ==> defs[i] == xs[i].definition
  {
    seq(|xs|, i requires 0 <= i < |xs| => xs[i].definition)
  }

  /** Object fields in source order become a map; a later key overwrites. */
  function MapOfFields(fields: seq<(string, Value)>): (m: map<string, Value>)
    ensures |m.Keys| <= |fields|
    ensures fields != [] ==> fields[|fields| - 1].0 in m && m[fields[|fields| - 1].0] == fields[|fields| - 1].1
  {
    if fields == [] then map[]
    else
      var last := fields[|fields| - 1];
      MapOfFields(fields[..|fields| - 1])[last.0 := last.1]
  }

  // ---------------------------------------------------------------------
  // Leaf productions

  /** `parseName`: a NAME token's text. */
  function ParseName(toks: seq<Token>, pos: nat): (r: Result<Parsed<string>>)
    requires pos <= |toks|
    ensures r.Ok? <==> Peek(toks, NAME, pos)
    ensures r.Ok? ==> r.value == Parsed(Current(toks, pos).value, pos + 1) && pos < |toks|
  {
    var t :- Expect(toks, NAME, pos);
    Ok(Parsed(t.node.value, t.next))
  }

  /** `parseNamedType`. */
  function ParseNamedType(toks: seq<Token>, pos: nat): (r: Result<Parsed<TypeReference>>)
    requires pos <= |toks|
    ensures r.Ok? <==> Peek(toks, NAME, pos)
    ensures r.Ok? ==> r.value == Parsed(NamedType(Current(toks, pos).value), pos + 1)
  {
    var n :- ParseName(toks, pos);
    Ok(Parsed(NamedType(n.node), n.next))
  }

  /** `parseVariable`: `$` then a NAME. */
  function ParseVariable(toks: seq<Token>, pos: nat): (r: Result<Parsed<Value>>)
    requires pos <= |toks|
    ensures r.Ok? <==> Peek(toks, DOLLAR, pos) && Peek(toks, NAME, pos + 1)
    ensures r.Ok? ==> r.value == Parsed(Variable(Current(toks, pos + 1).value), pos + 2)
  {
    var d :- Expect(toks, DOLLAR, pos);
    var n :- ParseName(toks, d.next);
    Ok(Parsed(Variable(n.node), n.next))
  }

  /** `parseStringLiteral`: the current token's text, consumed unchecked. */
  function ParseStringLiteral(toks: seq<Token>, pos: nat): (r: Result<Parsed<Value>>)
    requires pos <= |toks|
    ensures r.Ok? && r.value.node == String(Current(toks, pos).value)
    ensures r.value.next <= |toks| && (pos < |toks| ==> r.value.next == pos + 1)
  {
    Ok(Parsed(String(Current(toks, pos).value), Advance(toks, pos)))
  }

  /** `parseOperationType`: consumes a NAME and maps the three keywords. */
  function ParseOperationType(toks: seq<Token>, pos: nat): (r: Result<Parsed<OperationType>>)
    requires pos <= |toks|
    ensures r.Ok? <==> Peek(toks, NAME, pos) && IsOperationKeyword(Current(toks, pos).value)
    ensures r.Ok? ==> r.value.next == pos + 1
    ensures r.Ok? ==> (r.value.node == Query <==> Current(toks, pos).value == "query")
    ensures r.Ok? ==> (r.value.node == Mutation <==> Current(toks, pos).value == "mutation")
  {
    var t :- Expect(toks, NAME, pos);
    match t.node.value
    case "mutation" => Ok(Parsed(Mutation, t.next))
    case "query" => Ok(Parsed(Query, t.next))
    case "subscription" => Ok(Parsed(Subscription, t.next))
    case _ => Err(Unexpected(t.node))
  }

  /** `parseFragmentName`: a NAME other than `on`.  The `on` test looks at
      the token's text only, whatever its kind. */
  function ParseFragmentName(toks: seq<Token>, pos: nat): (r: Result<Parsed<string>>)
    requires pos <= |toks|
    ensures r.Ok? <==> Peek(toks, NAME, pos) && Current(toks, pos).value != "on"
    ensures r.Ok? ==> r.value == Parsed(Current(toks, pos).value, pos + 1)
    ensures Current(toks, pos).value == "on" ==> r == Err(Unexpected(Current(toks, pos)))
  {
    if Current(toks, pos).value == "on" then Err(Unexpected(Current(toks, pos)))
    else ParseName(toks, pos)
  }

  /** `parseTypeReference`: a base reference, then an optional `!` that wraps it. */
  function ParseTypeReference(toks: seq<Token>, pos: nat): (r: Result<Parsed<TypeReference>>)
    requires pos <= |toks|
    ensures r.Ok? ==> pos < r.value.next <= |toks|
    decreases |toks| - pos, 1
  {
    var base :- ParseBaseType(toks, pos);
    var bang := Skip(toks, BANG, base.next);
    Ok(Parsed(if bang.node then NonNullType(base.node) else base.node, bang.next))
  }

  /** The part of `parseTypeReference` before the `!`: `[T]` or a NAME. */
  function ParseBaseType(toks: seq<Token>, pos: nat): (r: Result<Parsed<TypeReference>>)
    requires pos <= |toks|
    ensures r.Ok? ==> pos < r.value.next <= |toks| && !r.value.node.NonNullType?
    decreases |toks| - pos, 0
  {
    var open := Skip(toks, BRACKET_L, pos);
    if open.node then
      var inner :- ParseTypeReference(toks, open.next);
      var close :- Expect(toks, BRACKET_R, inner.next);
      Ok(Parsed(ListType(inner.node), close.next))
    else ParseNamedType(toks, pos)
  }

  // ---------------------------------------------------------------------
  // The mutually recursive productions.  Decreases: tokens left, then a rank
  // that falls along every call made without consuming a token first.

  /** `Curry._1(parseFn, lexer)`: apply an element parser. */
  function ParseElement(toks: seq<Token>, e: ElementParser, pos: nat): (r: Result<Parsed<Element>>)
    requires pos <= |toks|
    ensures r.Ok? ==> pos < r.value.next <= |toks| && Fits(e, r.value.node)
    decreases |toks| - pos, 19
  {
    match e
    case ValueLiteral(c) =>
      var v :- ParseValue(toks, c, pos);
      Ok(Parsed(ValueElement(v.node), v.next))
    case ArgumentParser(c) =>
      var a :- ParseArgument(toks, c, pos);
      Ok(Parsed(ArgumentElement(a.node), a.next))
    case VariableDefinitionParser =>
      var d :- ParseVariableDefinition(toks, pos);
      Ok(Parsed(VariableDefinitionElement(d.node), d.next))
    case SelectionParser =>
      var s :- ParseSelection(toks, pos);
      Ok(Parsed(SelectionElement(s.node), s.next))
    case DefinitionParser =>
      var d :- ParseDefinition(toks, pos);
      Ok(Parsed(DefinitionElement(d.node), d.next))
  }

  /** The loop `any` and `many` share: `while (!skip(close)) parse one`. */
  function Tail(toks: seq<Token>, e: ElementParser, close: TokenKind, pos: nat): (r: Result<Parsed<seq<Element>>>)
    requires pos <= |toks|
    ensures r.Ok? ==> pos <= r.value.next <= |toks| && AllFit(e, r.value.node)
    ensures r.Ok? && close != EOF ==> pos < r.value.next && Peek(toks, close, r.value.next - 1)
    decreases |toks| - pos, 20
  {
    var s := Skip(toks, close, pos);
    if s.node then Ok(Parsed([], s.next))
    else
      var x :- ParseElement(toks, e, pos);
      var rest :- Tail(toks, e, close, x.next);
      Ok(Parsed([x.node] + rest.node, rest.next))
  }

  /** `any`: `open`, zero or more elements, `close`. */
  function Any(toks: seq<Token>, open: TokenKind, e: ElementParser, close: TokenKind, pos: nat): (r: Result<Parsed<seq<Element>>>)
    requires pos <= |toks| && open != EOF
    ensures r.Ok? ==> Peek(toks, open, pos) && pos < r.value.next <= |toks| && AllFit(e, r.value.node)
    decreases |toks| - pos, 16
  {
    var o :- Expect(toks, open, pos);
    Tail(toks, e, close, o.next)
  }

  /** `many`: `open`, one element parsed before `close` is first looked for,
      then as `any`. */
  function Many(toks: seq<Token>, open: TokenKind, e: ElementParser, close: TokenKind, pos: nat): (r: Result<Parsed<seq<Element>>>)
    requires pos <= |toks| && open != EOF
    ensures r.Ok? ==> Peek(toks, open, pos) && pos < r.value.next <= |toks| && AllFit(e, r.value.node)
    ensures r.Ok? ==> |r.value.node| >= 1
    decreases |toks| - pos, 14
  {
    var o :- Expect(toks, open, pos);
    OneOrMore(toks, e, close, o.next)
  }

  /** The part of `many` after `open`: one element, then the shared loop. */
  function OneOrMore(toks: seq<Token>, e: ElementParser, close: TokenKind, pos: nat): (r: Result<Parsed<seq<Element>>>)
    requires pos <= |toks|
    ensures r.Ok? ==> pos < r.value.next <= |toks| && AllFit(e, r.value.node) && |r.value.node| >= 1
    decreases |toks| - pos, 21
  {
    var first :- ParseElement(toks, e, pos);
    var rest :- Tail(toks, e, close, first.next);
    Ok(Parsed([first.node] + rest.node, rest.next))
  }

  /** `parseValueLiteral`: dispatch on the current token. */
  function ParseValue(toks: seq<Token>, isConst: bool, pos: nat): (r: Result<Parsed<Value>>)
    requires pos <= |toks|
    ensures r.Ok? ==> pos < r.value.next <= |toks|
    decreases |toks| - pos, 18
  {
    var t := Current(toks, pos);
    match t.kind
    case DOLLAR => if isConst then Err(Unexpected(t)) else ParseVariable(toks, pos)
    case BRACKET_L => ParseList(toks, isConst, pos)
    case BRACE_L => ParseObject(toks, isConst, pos)
    case NAME =>
      var v := match t.value
        case "false" => Boolean(false)
        case "null" => Null
        case "true" => Boolean(true)
        case _ => Enum(t.value);
      Ok(Parsed(v, Advance(toks, pos)))
    case INT =>
      (match Numbers.IntOfString(t.value)
       case Some(n) => Ok(Parsed(Int(n), Advance(toks, pos)))
       case None => Err(IntConversion(t.value)))
    case FLOAT => Ok(Parsed(Float(t.value), Advance(toks, pos)))
    case STRING => ParseStringLiteral(toks, pos)
    case _ => Err(Unexpected(t))
  }

  /** `parseList`: `[`, zero or more values with the same flag, `]`. */
  function ParseList(toks: seq<Token>, isConst: bool, pos: nat): (r: Result<Parsed<Value>>)
    requires pos <= |toks|
    ensures r.Ok? ==> pos < r.value.next <= |toks| && r.value.node.List?
    decreases |toks| - pos, 17
  {
    var items :- Any(toks, BRACKET_L, ValueLiteral(isConst), BRACKET_R, pos);
    Ok(Parsed(List(ValuesOf(items.node)), items.next))
  }

  /** `parseObject`: `{`, zero or more fields, `}`; fields go through a map. */
  function ParseObject(toks: seq<Token>, isConst: bool, pos: nat): (r: Result<Parsed<Value>>)
    requires pos <= |toks|
    ensures r.Ok? ==> pos < r.value.next <= |toks| && r.value.node.Object?
    decreases |toks| - pos, 17
  {
    var o :- Expect(toks, BRACE_L, pos);
    var fields :- ObjectFields(toks, isConst, o.next);
    Ok(Parsed(Object(MapOfFields(fields.node)), fields.next))
  }

  /** The fields of an object literal in source order, up to and including `}`. */
  function ObjectFields(toks: seq<Token>, isConst: bool, pos: nat): (r: Result<Parsed<seq<(string, Value)>>>)
    requires pos <= |toks|
    ensures r.Ok? ==> pos < r.value.next <= |toks| && Peek(toks, BRACE_R, r.value.next - 1)
    decreases |toks| - pos, 20
  {
    var s := Skip(toks, BRACE_R, pos);
    if s.node then Ok(Parsed([], s.next))
    else
      var f :- ParseObjectField(toks, isConst, pos);
      var rest :- ObjectFields(toks, isConst, f.next);
      Ok(Parsed([f.node] + rest.node, rest.next))
  }

  /** `parseObjectField`: NAME `:` value. */
  function ParseObjectField(toks: seq<Token>, isConst: bool, pos: nat): (r: Result<Parsed<(string, Value)>>)
    requires pos <= |toks|
    ensures r.Ok? ==> pos < r.value.next <= |toks| && r.value.node.0 == Current(toks, pos).value
    decreases |toks| - pos, 18
  {
    var name :- ParseName(toks, pos);
    var colon :- Expect(toks, COLON, name.next);
    var v :- ParseValue(toks, isConst, colon.next);
    Ok(Parsed((name.node, v.node), v.next))
  }

  /** `parseArgument` (isConst false) and `parseConstArgument` (isConst true). */
  function ParseArgument(toks: seq<Token>, isConst: bool, pos: nat): (r: Result<Parsed<Argument>>)
    requires pos <= |toks|
    ensures r.Ok? ==> pos < r.value.next <= |toks| && r.value.node.name == Current(toks, pos).value
    decreases |toks| - pos, 18
  {
    var name :- ParseName(toks, pos);
    var colon :- Expect(toks, COLON, name.next);
    var v :- ParseValue(toks, isConst, colon.next);
    Ok(Parsed(Argument(name.node, v.node), v.next))
  }

  /** `parseArguments`: nothing unless `(` follows; then at least one argument. */
  function ParseArguments(toks: seq<Token>, isConst: bool, pos: nat): (r: Result<Parsed<seq<Argument>>>)
    requires pos <= |toks|
    ensures r.Ok? ==> pos <= r.value.next <= |toks|
    ensures !Peek(toks, PAREN_L, pos) ==> r == Ok(Parsed([], pos))
    ensures r.Ok? && Peek(toks, PAREN_L, pos) ==> |r.value.node| >= 1 && pos < r.value.next
    decreases |toks| - pos, 15
  {
    if Peek(toks, PAREN_L, pos) then
      var args :- Many(toks, PAREN_L, ArgumentParser(isConst), PAREN_R, pos);
      Ok(Parsed(ArgumentsOf(args.node), args.next))
    else Ok(Parsed([], pos))
  }

  /** `parseDirective`: `@` NAME arguments. */
  function ParseDirective(toks: seq<Token>, isConst: bool, pos: nat): (r: Result<Parsed<Directive>>)
    requires pos <= |toks|
    ensures r.Ok? ==> Peek(toks, AT, pos) && pos < r.value.next <= |toks|
    ensures r.Ok? ==> r.value.node.name == Current(toks, pos + 1).value
    decreases |toks| - pos, 14
  {
    var at :- Expect(toks, AT, pos);
    var name :- ParseName(toks, at.next);
    var args :- ParseArguments(toks, isConst, name.next);
    Ok(Parsed(Directive(name.node, args.node), args.next))
  }

  /** `parseDirectives`: directives for as long as `@` follows. */
  function ParseDirectives(toks: seq<Token>, isConst: bool, pos: nat): (r: Result<Parsed<seq<Directive>>>)
    requires pos <= |toks|
    ensures r.Ok? ==> pos <= r.value.next <= |toks| && !Peek(toks, AT, r.value.next)
    ensures !Peek(toks, AT, pos) ==> r == Ok(Parsed([], pos))
    ensures r.Ok? && Peek(toks, AT, pos) ==> |r.value.node| >= 1 && pos < r.value.next
    decreases |toks| - pos, 15
  {
    if Peek(toks, AT, pos) then
      var d :- ParseDirective(toks, isConst, pos);
      var rest :- ParseDirectives(toks, isConst, d.next);
      Ok(Parsed([d.node] + rest.node, rest.next))
    else Ok(Parsed([], pos))
  }

  /** `parseVariableDefinition`: `$name : Type` then const directives; no default value. */
  function ParseVariableDefinition(toks: seq<Token>, pos: nat): (r: Result<Parsed<VariableDefinition>>)
    requires pos <= |toks|
    ensures r.Ok? ==> pos < r.value.next <= |toks|
    ensures r.Ok? ==> r.value.node.defaultValue == None && r.value.node.variable == Variable(Current(toks, pos + 1).value)
    decreases |toks| - pos, 18
  {
    var v :- ParseVariable(toks, pos);
    var colon :- Expect(toks, COLON, v.next);
    var typ :- ParseTypeReference(toks, colon.next);
    var dirs :- ParseDirectives(toks, true, typ.next);
    Ok(Parsed(VariableDefinition(v.node, typ.node, None, dirs.node), dirs.next))
  }

  /** `parseVariableDefinitions`: nothing unless `(` follows; then at least one. */
  function ParseVariableDefinitions(toks: seq<Token>, pos: nat): (r: Result<Parsed<seq<VariableDefinition>>>)
    requires pos <= |toks|
    ensures r.Ok? ==> pos <= r.value.next <= |toks|
    ensures !Peek(toks, PAREN_L, pos) ==> r == Ok(Parsed([], pos))
    ensures r.Ok? && Peek(toks, PAREN_L, pos) ==> |r.value.node| >= 1
    decreases |toks| - pos, 15
  {
    if Peek(toks, PAREN_L, pos) then
      var defs :- Many(toks, PAREN_L, VariableDefinitionParser, PAREN_R, pos);
      Ok(Parsed(VariableDefinitionsOf(defs.node), defs.next))
    else Ok(Parsed([], pos))
  }

  /** `parseSelectionSet`: `{`, one or more selections, `}`. */
  function ParseSelectionSet(toks: seq<Token>, pos: nat): (r: Result<Parsed<seq<Selection>>>)
    requires pos <= |toks|
    ensures r.Ok? ==> Peek(toks, BRACE_L, pos) && pos < r.value.next <= |toks| && |r.value.node| >= 1
    decreases |toks| - pos, 15
  {
    var sels :- Many(toks, BRACE_L, SelectionParser, BRACE_R, pos);
    Ok(Parsed(SelectionsOf(sels.node), sels.next))
  }

  /** `parseSelection`: `...` routes to fragments, anything else to a field. */
  function ParseSelection(toks: seq<Token>, pos: nat): (r: Result<Parsed<Selection>>)
    requires pos <= |toks|
    ensures r.Ok? ==> pos < r.value.next <= |toks|
    decreases |toks| - pos, 18
  {
    if Peek(toks, SPREAD, pos) then ParseFragment(toks, pos) else ParseField(toks, pos)
  }

  /** `parseFragment`: after `...`, a NAME other than `on` is a spread;
      otherwise an inline fragment with a mandatory type condition, read as
      type condition, selection set, then directives (see Findings: the
      GraphQL grammar puts the directives before the selection set). */
  function ParseFragment(toks: seq<Token>, pos: nat): (r: Result<Parsed<Selection>>)
    requires pos <= |toks|
    ensures r.Ok? ==> Peek(toks, SPREAD, pos) && pos < r.value.next <= |toks|
    ensures r.Ok? ==> !r.value.node.Field?
    decreases |toks| - pos, 17
  {
    var spread :- Expect(toks, SPREAD, pos);
    var on := SkipKeyword(toks, "on", spread.next);
    if !on.node && Peek(toks, NAME, on.next) then
      var name := ParseFragmentName(toks, on.next).value;  // a NAME other than `on` here
      var dirs :- ParseDirectives(toks, false, name.next);
      Ok(Parsed(FragmentSpread(name.node, dirs.node), dirs.next))
    else
      var typeCondition :- ParseName(toks, on.next);
      var sels :- ParseSelectionSet(toks, typeCondition.next);
      var dirs :- ParseDirectives(toks, false, sels.next);
      Ok(Parsed(InlineFragment(typeCondition.node, sels.node, dirs.node), dirs.next))
  }

  /** Lines 349-356 of `parseField`: a NAME, and when `:` follows it, the
      true name after it, the first one being the alias. */
  function ParseAliasAndName(toks: seq<Token>, pos: nat): (r: Result<Parsed<(Option<string>, string)>>)
    requires pos <= |toks|
    ensures r.Ok? ==> Peek(toks, NAME, pos) && pos < r.value.next <= |toks|
    ensures r.Ok? ==> (r.value.node.0.Some? <==> Peek(toks, COLON, pos + 1))
    ensures r.Ok? && Peek(toks, COLON, pos + 1) ==>
      r.value == Parsed((Some(Current(toks, pos).value), Current(toks, pos + 2).value), pos + 3)
    ensures r.Ok? && !Peek(toks, COLON, pos + 1) ==>
      r.value == Parsed((None, Current(toks, pos).value), pos + 1)
  {
    var first :- ParseName(toks, pos);
    var colon := Skip(toks, COLON, first.next);
    if colon.node then
      var second :- ParseName(toks, colon.next);
      Ok(Parsed((Some(first.node), second.node), second.next))
    else Ok(Parsed((None, first.node), colon.next))
  }

  /** `parseField`: alias and name, arguments, directives, and a selection
      set only when `{` follows. */
  function ParseField(toks: seq<Token>, pos: nat): (r: Result<Parsed<Selection>>)
    requires pos <= |toks|
    ensures r.Ok? ==> pos < r.value.next <= |toks| && r.value.node.Field?
    decreases |toks| - pos, 17
  {
    var names :- ParseAliasAndName(toks, pos);
    var args :- ParseArguments(toks, false, names.next);
    var dirs :- ParseDirectives(toks, false, args.next);
    var sels :- if Peek(toks, BRACE_L, dirs.next) then ParseSelectionSet(toks, dirs.next)
                else Ok(Parsed([], dirs.next));
    Ok(Parsed(Field(names.node.0, names.node.1, args.node, sels.node, dirs.node), sels.next))
  }

  /** `parseOperationDefintiion`: a bare selection set is an anonymous query;
      otherwise operation type, optional name, variables, directives, selections. */
  function ParseOperationDefinition(toks: seq<Token>, pos: nat): (r: Result<Parsed<Definition>>)
    requires pos <= |toks|
    ensures r.Ok? ==> pos < r.value.next <= |toks| && r.value.node.Operation?
    decreases |toks| - pos, 16
  {
    if Peek(toks, BRACE_L, pos) then
      var sels :- ParseSelectionSet(toks, pos);
      Ok(Parsed(Operation(OperationDefinition(Query, None, [], [], sels.node)), sels.next))
    else
      var opType :- ParseOperationType(toks, pos);
      var name: Parsed<Option<string>> := if Peek(toks, NAME, opType.next) then
          (var n := ParseName(toks, opType.next).value; Parsed(Some(n.node), n.next))
        else Parsed(None, opType.next);
      var vars :- ParseVariableDefinitions(toks, name.next);
      var dirs :- ParseDirectives(toks, false, vars.next);
      var sels :- ParseSelectionSet(toks, dirs.next);
      Ok(Parsed(Operation(OperationDefinition(opType.node, name.node, vars.node, dirs.node, sels.node)), sels.next))
  }

  /** `parseFragmentDefinition`: `fragment` name `on` type, then selection
      set and directives (see Findings: the GraphQL grammar puts the
      directives first). */
  function ParseFragmentDefinition(toks: seq<Token>, pos: nat): (r: Result<Parsed<Definition>>)
    requires pos <= |toks|
    ensures r.Ok? ==> AtKeyword(toks, "fragment", pos) && pos < r.value.next <= |toks| && r.value.node.Fragment?
    decreases |toks| - pos, 16
  {
    var kw :- ExpectKeyword(toks, "fragment", pos);
    var name :- ParseFragmentName(toks, kw.next);
    var on :- ExpectKeyword(toks, "on", name.next);
    var typeCondition :- ParseName(toks, on.next);
    var sels :- ParseSelectionSet(toks, typeCondition.next);
    var dirs :- ParseDirectives(toks, false, sels.next);
    Ok(Parsed(Fragment(FragmentDefinition(name.node, typeCondition.node, sels.node, dirs.node)), dirs.next))
  }

  /** `parseExecutableDefinition`: route on the operation and fragment keywords and `{`. */
  function ParseExecutableDefinition(toks: seq<Token>, pos: nat): (r: Result<Parsed<Definition>>)
    requires pos <= |toks|
    ensures r.Ok? ==> pos < r.value.next <= |toks|
    decreases |toks| - pos, 17
  {
    var t := Current(toks, pos);
    if Peek(toks, NAME, pos) then
      if t.value == "fragment" then ParseFragmentDefinition(toks, pos)
      else if IsOperationKeyword(t.value) then ParseOperationDefinition(toks, pos)
      else Err(Unexpected(t))
    else if Peek(toks, BRACE_L, pos) then ParseOperationDefinition(toks, pos)
    else Err(Unexpected(t))
  }

  /** `parseDefinition`: executable definitions go on; type-system keywords,
      `extend` and anything that is neither a NAME nor `{` are not implemented. */
  function ParseDefinition(toks: seq<Token>, pos: nat): (r: Result<Parsed<Definition>>)
    requires pos <= |toks|
    ensures r.Ok? ==> pos < r.value.next <= |toks|
    decreases |toks| - pos, 18
  {
    var t := Current(toks, pos);
    if Peek(toks, NAME, pos) then
      if t.value == "extend" then Err(NotImplemented(TypeSystemExtension))
      else if t.value == "fragment" || IsOperationKeyword(t.value) then ParseExecutableDefinition(toks, pos)
      else if IsTypeSystemKeyword(t.value) then Err(NotImplemented(TypeSystemDefinition))
      else Err(Unexpected(t))
    else if Peek(toks, BRACE_L, pos) then ParseExecutableDefinition(toks, pos)
    else Err(NotImplemented(NonNameDefinition))
  }

  /** `parseDocument`: SOF, one or more definitions, EOF. */
  function ParseDocument(toks: seq<Token>): (r: Result<Document>)
    ensures r.Ok? ==> Peek(toks, SOF, 0) && |r.value.definitions| >= 1
  {
    var defs :- Many(toks, SOF, DefinitionParser, EOF, 0);
    Ok(Document(DefinitionsOf(defs.node)))
  }
}
