/** The parser as the source runs it: one lexer object whose cursor the
    primitives move, and productions that call each other on it.  `any`,
    `many`, `parseObject` and `parseDirectives` are while loops that grow a
    local list or map.  Every method is proved to compute exactly what the
    grammar function of the same name specifies: the same node and the same
    final cursor on success, the same error on failure. */
module Parser {
  import opened Tokens
  import opened Ast
  import opened Results
  import C = Cursor
  import G = Grammar
  import Numbers

  /** `r` and the cursor `pos` are what the specification `spec` says. */
  ghost predicate Agrees<T>(r: Result<T>, spec: Result<Parsed<T>>, pos: nat) {
    match spec
    case Ok(p) => r == Ok(p.node) && pos == p.next
    case Err(e) => r == Err(e)
  }

  /** The nodes a loop has collected, in front of what the rest of the loop yields. */
  ghost function Prepend<T>(xs: seq<T>, rest: Result<Parsed<seq<T>>>): Result<Parsed<seq<T>>> {
    match rest
    case Ok(p) => Ok(Parsed(xs + p.node, p.next))
    case Err(e) => Err(e)
  }

  lemma PrependNil<T>(rest: Result<Parsed<seq<T>>>)
    ensures Prepend([], rest) == rest
  {
    match rest {
      case Ok(p) => assert [] + p.node == p.node;
      case Err(_) =>
    }
  }

  lemma PrependSnoc<T>(xs: seq<T>, x: T, rest: Result<Parsed<seq<T>>>)
    ensures Prepend(xs, Prepend([x], rest)) == Prepend(xs + [x], rest)
  {
    match rest {
      case Ok(p) => assert xs + ([x] + p.node) == (xs + [x]) + p.node;
      case Err(_) =>
    }
  }

  /** One turn of the shared `any`/`many` loop, when `close` is not next. */
  lemma TailStep(toks: seq<Token>, e: G.ElementParser, close: TokenKind, pos: nat, xs: seq<G.Element>)
    requires pos <= |toks| && !C.Peek(toks, close, pos)
    ensures var x := G.ParseElement(toks, e, pos);
      Prepend(xs, G.Tail(toks, e, close, pos)) ==
        if x.Ok? then Prepend(xs + [x.value.node], G.Tail(toks, e, close, x.value.next)) else Err(x.error)
  {
    var x := G.ParseElement(toks, e, pos);
    TailUnfold(toks, e, close, pos);
    if x.Ok? {
      PrependSnoc(xs, x.value.node, G.Tail(toks, e, close, x.value.next));
    }
  }

  lemma TailUnfold(toks: seq<Token>, e: G.ElementParser, close: TokenKind, pos: nat)
    requires pos <= |toks| && !C.Peek(toks, close, pos)
    ensures var x := G.ParseElement(toks, e, pos);
      G.Tail(toks, e, close, pos) ==
        if x.Ok? then Prepend([x.value.node], G.Tail(toks, e, close, x.value.next)) else Err(x.error)
  {
  }

  /** The shared loop ends where `close` is skipped. */
  lemma TailClosed(toks: seq<Token>, e: G.ElementParser, close: TokenKind, pos: nat, xs: seq<G.Element>)
    requires pos <= |toks| && C.Peek(toks, close, pos)
    ensures Prepend(xs, G.Tail(toks, e, close, pos)) == Ok(Parsed(xs, C.Skip(toks, close, pos).next))
  {
    assert xs + [] == xs;
  }

  /** One turn of the object-field loop, when `}` is not next. */
  lemma ObjectFieldsStep(toks: seq<Token>, isConst: bool, pos: nat, xs: seq<(string, Value)>)
    requires pos <= |toks| && !C.Peek(toks, BRACE_R, pos)
    ensures var f := G.ParseObjectField(toks, isConst, pos);
      Prepend(xs, G.ObjectFields(toks, isConst, pos)) ==
        if f.Ok? then Prepend(xs + [f.value.node], G.ObjectFields(toks, isConst, f.value.next)) else Err(f.error)
  {
    var f := G.ParseObjectField(toks, isConst, pos);
    if f.Ok? {
      PrependSnoc(xs, f.value.node, G.ObjectFields(toks, isConst, f.value.next));
    }
  }

  /** The object-field loop ends where `}` is skipped. */
  lemma ObjectFieldsClosed(toks: seq<Token>, isConst: bool, pos: nat, xs: seq<(string, Value)>)
    requires pos <= |toks| && C.Peek(toks, BRACE_R, pos)
    ensures Prepend(xs, G.ObjectFields(toks, isConst, pos)) == Ok(Parsed(xs, pos + 1))
  {
    assert xs + [] == xs;
  }

  /** Adding a field to the map is folding one more pair. */
  lemma MapOfFieldsSnoc(pairs: seq<(string, Value)>, f: (string, Value))
    ensures G.MapOfFields(pairs + [f]) == G.MapOfFields(pairs)[f.0 := f.1]
  {
    assert (pairs + [f])[..|pairs|] == pairs;
  }

  /** One turn of the directives loop, when `@` is next. */
  lemma DirectivesStep(toks: seq<Token>, isConst: bool, pos: nat, xs: seq<Directive>)
    requires pos <= |toks| && C.Peek(toks, AT, pos)
    ensures var d := G.ParseDirective(toks, isConst, pos);
      Prepend(xs, G.ParseDirectives(toks, isConst, pos)) ==
        if d.Ok? then Prepend(xs + [d.value.node], G.ParseDirectives(toks, isConst, d.value.next)) else Err(d.error)
  {
    var d := G.ParseDirective(toks, isConst, pos);
    if d.Ok? {
      PrependSnoc(xs, d.value.node, G.ParseDirectives(toks, isConst, d.value.next));
    }
  }

  /** The directives loop ends where no `@` follows. */
  lemma DirectivesEnd(toks: seq<Token>, isConst: bool, pos: nat, xs: seq<Directive>)
    requires pos <= |toks| && !C.Peek(toks, AT, pos)
    ensures Prepend(xs, G.ParseDirectives(toks, isConst, pos)) == Ok(Parsed(xs, pos))
  {
    assert xs + [] == xs;
  }

  /** The lexer handle: the token stream and the cursor into it. */
  class Lexer {
    const tokens: seq<Token>
    var pos: nat

    ghost predicate Valid() reads this {
      pos <= |tokens|
    }

    /** `Lexer.make`, given the tokens the lexer would produce. */
    constructor (toks: seq<Token>)
      ensures Valid() && tokens == toks && pos == 0
    {
      tokens := toks;
      pos := 0;
    }

    /** `lexer.token`. */
    function CurrentToken(): (t: Token)
      reads this
      ensures pos < |tokens| ==> t == tokens[pos]
      ensures pos >= |tokens| ==> t.kind == EOF
    {
      C.Current(tokens, pos)
    }

    /** `Lexer.advance`: one token forward, clamped at the end. */
    method Advance()
      requires Valid()
      modifies this
      ensures Valid() && pos == C.Advance(tokens, old(pos))
    {
      if pos < |tokens| {
        pos := pos + 1;
      }
    }

    /** `peek`. */
    predicate Peek(k: TokenKind)
      reads this
      ensures Peek(k) <==> C.Peek(tokens, k, pos)
      ensures pos < |tokens| ==> (Peek(k) <==> tokens[pos].kind == k)
    {
      CurrentToken().kind == k
    }

    /** `expect`. */
    method Expect(k: TokenKind) returns (r: Result<Token>)
      requires Valid()
      modifies this
      ensures Valid() && Agrees(r, C.Expect(tokens, k, old(pos)), pos)
    {
      var token := CurrentToken();
      if token.kind == k {
        Advance();
        r := Ok(token);
      } else {
        r := Err(ExpectedKind(k, token));
      }
    }

    /** `skip`. */
    method Skip(k: TokenKind) returns (skipped: bool)
      requires Valid()
      modifies this
      ensures Valid() && C.Skip(tokens, k, old(pos)) == Parsed(skipped, pos)
    {
      skipped := Peek(k);
      if skipped {
        Advance();
      }
    }

    /** `skipKeyword`. */
    method SkipKeyword(word: string) returns (skipped: bool)
      requires Valid()
      modifies this
      ensures Valid() && C.SkipKeyword(tokens, word, old(pos)) == Parsed(skipped, pos)
    {
      var token := CurrentToken();
      skipped := token.kind == NAME && token.value == word;
      if skipped {
        Advance();
      }
    }

    /** `expectKeyword`. */
    method ExpectKeyword(word: string) returns (r: Result<()>)
      requires Valid()
      modifies this
      ensures Valid() && Agrees(r, C.ExpectKeyword(tokens, word, old(pos)), pos)
    {
      var skipped := SkipKeyword(word);
      if skipped {
        r := Ok(());
      } else {
        r := Err(ExpectedKeyword(word, CurrentToken()));
      }
    }
  }

  method ParseName(lx: Lexer) returns (r: Result<string>)
    requires lx.Valid()
    modifies lx
    ensures lx.Valid() && Agrees(r, G.ParseName(lx.tokens, old(lx.pos)), lx.pos)
  {
    var t :- lx.Expect(NAME);
    r := Ok(t.value);
  }

  method ParseNamedType(lx: Lexer) returns (r: Result<TypeReference>)
    requires lx.Valid()
    modifies lx
    ensures lx.Valid() && Agrees(r, G.ParseNamedType(lx.tokens, old(lx.pos)), lx.pos)
  {
    var n :- ParseName(lx);
    r := Ok(NamedType(n));
  }

  method ParseVariable(lx: Lexer) returns (r: Result<Value>)
    requires lx.Valid()
    modifies lx
    ensures lx.Valid() && Agrees(r, G.ParseVariable(lx.tokens, old(lx.pos)), lx.pos)
  {
    var d :- lx.Expect(DOLLAR);
    var n :- ParseName(lx);
    r := Ok(Variable(n));
  }

  method ParseStringLiteral(lx: Lexer) returns (r: Result<Value>)
    requires lx.Valid()
    modifies lx
    ensures lx.Valid() && Agrees(r, G.ParseStringLiteral(lx.tokens, old(lx.pos)), lx.pos)
  {
    var token := lx.CurrentToken();
    lx.Advance();
    r := Ok(String(token.value));
  }

  method ParseOperationType(lx: Lexer) returns (r: Result<OperationType>)
    requires lx.Valid()
    modifies lx
    ensures lx.Valid() && Agrees(r, G.ParseOperationType(lx.tokens, old(lx.pos)), lx.pos)
  {
    var token :- lx.Expect(NAME);
    match token.value {
      case "mutation" => r := Ok(Mutation);
      case "query" => r := Ok(Query);
      case "subscription" => r := Ok(Subscription);
      case _ => r := Err(Unexpected(token));
    }
  }

  method ParseFragmentName(lx: Lexer) returns (r: Result<string>)
    requires lx.Valid()
    modifies lx
    ensures lx.Valid() && Agrees(r, G.ParseFragmentName(lx.tokens, old(lx.pos)), lx.pos)
  {
    var token := lx.CurrentToken();
    if token.value == "on" {
      r := Err(Unexpected(token));
    } else {
      r := ParseName(lx);
    }
  }

  method ParseTypeReference(lx: Lexer) returns (r: Result<TypeReference>)
    requires lx.Valid()
    modifies lx
    ensures lx.Valid() && Agrees(r, G.ParseTypeReference(lx.tokens, old(lx.pos)), lx.pos)
    decreases |lx.tokens| - lx.pos
  {
    var typ: TypeReference;
    var open := lx.Skip(BRACKET_L);
    if open {
      var t :- ParseTypeReference(lx);
      var close :- lx.Expect(BRACKET_R);
      typ := ListType(t);
    } else {
      typ :- ParseNamedType(lx);
    }
    var bang := lx.Skip(BANG);
    r := Ok(if bang then NonNullType(typ) else typ);
  }

  /** `Curry._1(parseFn, lexer)`. */
  method ParseElement(lx: Lexer, e: G.ElementParser) returns (r: Result<G.Element>)
    requires lx.Valid()
    modifies lx
    ensures lx.Valid() && Agrees(r, G.ParseElement(lx.tokens, e, old(lx.pos)), lx.pos)
    decreases |lx.tokens| - lx.pos, 19
  {
    match e {
      case ValueLiteral(c) =>
        var v :- ParseValueLiteral(lx, c);
        r := Ok(G.ValueElement(v));
      case ArgumentParser(c) =>
        var a :- ParseArgument(lx, c);
        r := Ok(G.ArgumentElement(a));
      case VariableDefinitionParser =>
        var d :- ParseVariableDefinition(lx);
        r := Ok(G.VariableDefinitionElement(d));
      case SelectionParser =>
        var s :- ParseSelection(lx);
        r := Ok(G.SelectionElement(s));
      case DefinitionParser =>
        var d :- ParseDefinition(lx);
        r := Ok(G.DefinitionElement(d));
    }
  }

  /** The loop `any` and `many` share: until `close` is skipped, parse one
      element and append it (the source conses and reverses at the end). */
  method Tail(lx: Lexer, e: G.ElementParser, close: TokenKind) returns (r: Result<seq<G.Element>>)
    requires lx.Valid()
    modifies lx
    ensures lx.Valid() && Agrees(r, G.Tail(lx.tokens, e, close, old(lx.pos)), lx.pos)
    decreases |lx.tokens| - lx.pos, 20
  {
    ghost var goal := G.Tail(lx.tokens, e, close, lx.pos);
    var nodes: seq<G.Element> := [];
    PrependNil(goal);
    while true
      invariant lx.Valid() && old(lx.pos) <= lx.pos
      invariant goal == Prepend(nodes, G.Tail(lx.tokens, e, close, lx.pos))
      decreases |lx.tokens| - lx.pos
    {
      ghost var here := lx.pos;
      var closed := lx.Skip(close);
      if closed {
        TailClosed(lx.tokens, e, close, here, nodes);
        return Ok(nodes);
      }
      TailStep(lx.tokens, e, close, here, nodes);
      var x := ParseElement(lx, e);
      if x.Err? {
        return Err(x.error);
      }
      nodes := nodes + [x.value];
    }
  }

  /** `any`. */
  method Any(lx: Lexer, open: TokenKind, e: G.ElementParser, close: TokenKind) returns (r: Result<seq<G.Element>>)
    requires lx.Valid() && open != EOF
    modifies lx
    ensures lx.Valid() && Agrees(r, G.Any(lx.tokens, open, e, close, old(lx.pos)), lx.pos)
    decreases |lx.tokens| - lx.pos, 16
  {
    var opening :- lx.Expect(open);
    r := Tail(lx, e, close);
  }

  /** `many`: the first element is parsed before `close` is looked for. */
  method Many(lx: Lexer, open: TokenKind, e: G.ElementParser, close: TokenKind) returns (r: Result<seq<G.Element>>)
    requires lx.Valid() && open != EOF
    modifies lx
    ensures lx.Valid() && Agrees(r, G.Many(lx.tokens, open, e, close, old(lx.pos)), lx.pos)
    decreases |lx.tokens| - lx.pos, 14
  {
    var opening :- lx.Expect(open);
    r := OneOrMore(lx, e, close);
  }

  /** The part of `many` after `open`. */
  method OneOrMore(lx: Lexer, e: G.ElementParser, close: TokenKind) returns (r: Result<seq<G.Element>>)
    requires lx.Valid()
    modifies lx
    ensures lx.Valid() && Agrees(r, G.OneOrMore(lx.tokens, e, close, old(lx.pos)), lx.pos)
    decreases |lx.tokens| - lx.pos, 21
  {
    var first :- ParseElement(lx, e);
    var rest :- Tail(lx, e, close);
    r := Ok([first] + rest);
  }

  /** `parseValueLiteral`. */
  method ParseValueLiteral(lx: Lexer, isConst: bool) returns (r: Result<Value>)
    requires lx.Valid()
    modifies lx
    ensures lx.Valid() && Agrees(r, G.ParseValue(lx.tokens, isConst, old(lx.pos)), lx.pos)
    decreases |lx.tokens| - lx.pos, 18
  {
    var token := lx.CurrentToken();
    match token.kind {
      case DOLLAR =>
        if isConst {
          r := Err(Unexpected(token));
        } else {
          r := ParseVariable(lx);
        }
      case BRACKET_L =>
        r := ParseList(lx, isConst);
      case BRACE_L =>
        r := ParseObject(lx, isConst);
      case NAME =>
        lx.Advance();
        match token.value {
          case "false" => r := Ok(Boolean(false));
          case "null" => r := Ok(Null);
          case "true" => r := Ok(Boolean(true));
          case _ => r := Ok(Enum(token.value));
        }
      case INT =>
        lx.Advance();
        var n := Numbers.IntOfString(token.value);
        r := if n.Some? then Ok(Int(n.value)) else Err(IntConversion(token.value));
      case FLOAT =>
        lx.Advance();
        r := Ok(Float(token.value));
      case STRING =>
        r := ParseStringLiteral(lx);
      case _ =>
        r := Err(Unexpected(token));
    }
  }

  /** `parseList`. */
  method ParseList(lx: Lexer, isConst: bool) returns (r: Result<Value>)
    requires lx.Valid()
    modifies lx
    ensures lx.Valid() && Agrees(r, G.ParseList(lx.tokens, isConst, old(lx.pos)), lx.pos)
    decreases |lx.tokens| - lx.pos, 17
  {
    var items :- Any(lx, BRACKET_L, G.ValueLiteral(isConst), BRACKET_R);
    r := Ok(List(G.ValuesOf(items)));
  }

  /** `parseObject`: until `}` is skipped, parse a field and add it to the
      map, a later key replacing an earlier one. */
  method ParseObject(lx: Lexer, isConst: bool) returns (r: Result<Value>)
    requires lx.Valid()
    modifies lx
    ensures lx.Valid() && Agrees(r, G.ParseObject(lx.tokens, isConst, old(lx.pos)), lx.pos)
    decreases |lx.tokens| - lx.pos, 17
  {
    var opening :- lx.Expect(BRACE_L);
    ghost var goal := G.ObjectFields(lx.tokens, isConst, lx.pos);
    ghost var pairs: seq<(string, Value)> := [];
    var fields: map<string, Value> := map[];
    PrependNil(goal);
    while true
      invariant lx.Valid() && old(lx.pos) < lx.pos
      invariant goal == Prepend(pairs, G.ObjectFields(lx.tokens, isConst, lx.pos))
      invariant fields == G.MapOfFields(pairs)
      decreases |lx.tokens| - lx.pos
    {
      ghost var here := lx.pos;
      var closed := lx.Skip(BRACE_R);
      if closed {
        ObjectFieldsClosed(lx.tokens, isConst, here, pairs);
        return Ok(Object(fields));
      }
      ObjectFieldsStep(lx.tokens, isConst, here, pairs);
      var field := ParseObjectField(lx, isConst);
      if field.Err? {
        return Err(field.error);
      }
      fields := fields[field.value.0 := field.value.1];
      MapOfFieldsSnoc(pairs, field.value);
      pairs := pairs + [field.value];
    }
  }

  method ParseObjectField(lx: Lexer, isConst: bool) returns (r: Result<(string, Value)>)
    requires lx.Valid()
    modifies lx
    ensures lx.Valid() && Agrees(r, G.ParseObjectField(lx.tokens, isConst, old(lx.pos)), lx.pos)
    decreases |lx.tokens| - lx.pos, 18
  {
    var name :- ParseName(lx);
    var colon :- lx.Expect(COLON);
    var value :- ParseValueLiteral(lx, isConst);
    r := Ok((name, value));
  }

  /** `parseArgument` and `parseConstArgument`. */
  method ParseArgument(lx: Lexer, isConst: bool) returns (r: Result<Argument>)
    requires lx.Valid()
    modifies lx
    ensures lx.Valid() && Agrees(r, G.ParseArgument(lx.tokens, isConst, old(lx.pos)), lx.pos)
    decreases |lx.tokens| - lx.pos, 18
  {
    var name :- ParseName(lx);
    var colon :- lx.Expect(COLON);
    var value :- ParseValueLiteral(lx, isConst);
    r := Ok(Argument(name, value));
  }

  method ParseArguments(lx: Lexer, isConst: bool) returns (r: Result<seq<Argument>>)
    requires lx.Valid()
    modifies lx
    ensures lx.Valid() && Agrees(r, G.ParseArguments(lx.tokens, isConst, old(lx.pos)), lx.pos)
    decreases |lx.tokens| - lx.pos, 15
  {
    if lx.Peek(PAREN_L) {
      var args :- Many(lx, PAREN_L, G.ArgumentParser(isConst), PAREN_R);
      r := Ok(G.ArgumentsOf(args));
    } else {
      r := Ok([]);
    }
  }

  method ParseDirective(lx: Lexer, isConst: bool) returns (r: Result<Directive>)
    requires lx.Valid()
    modifies lx
    ensures lx.Valid() && Agrees(r, G.ParseDirective(lx.tokens, isConst, old(lx.pos)), lx.pos)
    decreases |lx.tokens| - lx.pos, 14
  {
    var at :- lx.Expect(AT);
    var name :- ParseName(lx);
    var args :- ParseArguments(lx, isConst);
    r := Ok(Directive(name, args));
  }

  /** `parseDirectives`: a loop for as long as `@` follows. */
  method ParseDirectives(lx: Lexer, isConst: bool) returns (r: Result<seq<Directive>>)
    requires lx.Valid()
    modifies lx
    ensures lx.Valid() && Agrees(r, G.ParseDirectives(lx.tokens, isConst, old(lx.pos)), lx.pos)
    decreases |lx.tokens| - lx.pos, 15
  {
    ghost var goal := G.ParseDirectives(lx.tokens, isConst, lx.pos);
    var directives: seq<Directive> := [];
    PrependNil(goal);
    while lx.Peek(AT)
      invariant lx.Valid() && old(lx.pos) <= lx.pos
      invariant goal == Prepend(directives, G.ParseDirectives(lx.tokens, isConst, lx.pos))
      decreases |lx.tokens| - lx.pos
    {
      DirectivesStep(lx.tokens, isConst, lx.pos, directives);
      var d :- ParseDirective(lx, isConst);
      directives := directives + [d];
    }
    DirectivesEnd(lx.tokens, isConst, lx.pos, directives);
    r := Ok(directives);
  }

  method ParseVariableDefinition(lx: Lexer) returns (r: Result<VariableDefinition>)
    requires lx.Valid()
    modifies lx
    ensures lx.Valid() && Agrees(r, G.ParseVariableDefinition(lx.tokens, old(lx.pos)), lx.pos)
    decreases |lx.tokens| - lx.pos, 18
  {
    var variable :- ParseVariable(lx);
    var colon :- lx.Expect(COLON);
    var typ :- ParseTypeReference(lx);
    var directives :- ParseDirectives(lx, true);
    r := Ok(VariableDefinition(variable, typ, None, directives));
  }

  method ParseVariableDefinitions(lx: Lexer) returns (r: Result<seq<VariableDefinition>>)
    requires lx.Valid()
    modifies lx
    ensures lx.Valid() && Agrees(r, G.ParseVariableDefinitions(lx.tokens, old(lx.pos)), lx.pos)
    decreases |lx.tokens| - lx.pos, 15
  {
    if lx.Peek(PAREN_L) {
      var defs :- Many(lx, PAREN_L, G.VariableDefinitionParser, PAREN_R);
      r := Ok(G.VariableDefinitionsOf(defs));
    } else {
      r := Ok([]);
    }
  }

  method ParseSelectionSet(lx: Lexer) returns (r: Result<seq<Selection>>)
    requires lx.Valid()
    modifies lx
    ensures lx.Valid() && Agrees(r, G.ParseSelectionSet(lx.tokens, old(lx.pos)), lx.pos)
    decreases |lx.tokens| - lx.pos, 15
  {
    var sels :- Many(lx, BRACE_L, G.SelectionParser, BRACE_R);
    r := Ok(G.SelectionsOf(sels));
  }

  method ParseSelection(lx: Lexer) returns (r: Result<Selection>)
    requires lx.Valid()
    modifies lx
    ensures lx.Valid() && Agrees(r, G.ParseSelection(lx.tokens, old(lx.pos)), lx.pos)
    decreases |lx.tokens| - lx.pos, 18
  {
    if lx.Peek(SPREAD) {
      r := ParseFragment(lx);
    } else {
      r := ParseField(lx);
    }
  }

  method ParseFragment(lx: Lexer) returns (r: Result<Selection>)
    requires lx.Valid()
    modifies lx
    ensures lx.Valid() && Agrees(r, G.ParseFragment(lx.tokens, old(lx.pos)), lx.pos)
    decreases |lx.tokens| - lx.pos, 17
  {
    var spread :- lx.Expect(SPREAD);
    var hasTypeCondition := lx.SkipKeyword("on");
    if !hasTypeCondition && lx.Peek(NAME) {
      var fragmentName := ParseFragmentName(lx);  // a NAME other than `on` here
      var name := fragmentName.value;
      var directives :- ParseDirectives(lx, false);
      r := Ok(FragmentSpread(name, directives));
    } else {
      var typeCondition :- ParseName(lx);
      var sels :- ParseSelectionSet(lx);
      var directives :- ParseDirectives(lx, false);
      r := Ok(InlineFragment(typeCondition, sels, directives));
    }
  }

  method ParseAliasAndName(lx: Lexer) returns (r: Result<(Option<string>, string)>)
    requires lx.Valid()
    modifies lx
    ensures lx.Valid() && Agrees(r, G.ParseAliasAndName(lx.tokens, old(lx.pos)), lx.pos)
  {
    var name :- ParseName(lx);
    var colon := lx.Skip(COLON);
    if colon {
      var second :- ParseName(lx);
      r := Ok((Some(name), second));
    } else {
      r := Ok((None, name));
    }
  }

  method ParseField(lx: Lexer) returns (r: Result<Selection>)
    requires lx.Valid()
    modifies lx
    ensures lx.Valid() && Agrees(r, G.ParseField(lx.tokens, old(lx.pos)), lx.pos)
    decreases |lx.tokens| - lx.pos, 17
  {
    var names :- ParseAliasAndName(lx);
    var arguments :- ParseArguments(lx, false);
    var directives :- ParseDirectives(lx, false);
    var sels: seq<Selection> := [];
    if lx.Peek(BRACE_L) {
      sels :- ParseSelectionSet(lx);
    }
    r := Ok(Field(names.0, names.1, arguments, sels, directives));
  }

  method ParseOperationDefinition(lx: Lexer) returns (r: Result<Definition>)
    requires lx.Valid()
    modifies lx
    ensures lx.Valid() && Agrees(r, G.ParseOperationDefinition(lx.tokens, old(lx.pos)), lx.pos)
    decreases |lx.tokens| - lx.pos, 16
  {
    if lx.Peek(BRACE_L) {
      var sels :- ParseSelectionSet(lx);
      r := Ok(Operation(OperationDefinition(Query, None, [], [], sels)));
    } else {
      var operationType :- ParseOperationType(lx);
      var name: Option<string> := None;
      if lx.Peek(NAME) {
        var n := ParseName(lx);
        name := Some(n.value);
      }
      var variableDefinition :- ParseVariableDefinitions(lx);
      var directives :- ParseDirectives(lx, false);
      var sels :- ParseSelectionSet(lx);
      r := Ok(Operation(OperationDefinition(operationType, name, variableDefinition, directives, sels)));
    }
  }

  method ParseFragmentDefinition(lx: Lexer) returns (r: Result<Definition>)
    requires lx.Valid()
    modifies lx
    ensures lx.Valid() && Agrees(r, G.ParseFragmentDefinition(lx.tokens, old(lx.pos)), lx.pos)
    decreases |lx.tokens| - lx.pos, 16
  {
    var kw :- lx.ExpectKeyword("fragment");
    var name :- ParseFragmentName(lx);
    var on :- lx.ExpectKeyword("on");
    var typeCondition :- ParseName(lx);
    var sels :- ParseSelectionSet(lx);
    var directives :- ParseDirectives(lx, false);
    r := Ok(Fragment(FragmentDefinition(name, typeCondition, sels, directives)));
  }

  method ParseExecutableDefinition(lx: Lexer) returns (r: Result<Definition>)
    requires lx.Valid()
    modifies lx
    ensures lx.Valid() && Agrees(r, G.ParseExecutableDefinition(lx.tokens, old(lx.pos)), lx.pos)
    decreases |lx.tokens| - lx.pos, 17
  {
    var token := lx.CurrentToken();
    if lx.Peek(NAME) {
      if token.value == "fragment" {
        r := ParseFragmentDefinition(lx);
      } else if IsOperationKeyword(token.value) {
        r := ParseOperationDefinition(lx);
      } else {
        r := Err(Unexpected(token));
      }
    } else if lx.Peek(BRACE_L) {
      r := ParseOperationDefinition(lx);
    } else {
      r := Err(Unexpected(token));
    }
  }

  method ParseDefinition(lx: Lexer) returns (r: Result<Definition>)
    requires lx.Valid()
    modifies lx
    ensures lx.Valid() && Agrees(r, G.ParseDefinition(lx.tokens, old(lx.pos)), lx.pos)
    decreases |lx.tokens| - lx.pos, 18
  {
    var token := lx.CurrentToken();
    if lx.Peek(NAME) {
      if token.value == "extend" {
        r := Err(NotImplemented(TypeSystemExtension));
      } else if token.value == "fragment" || IsOperationKeyword(token.value) {
        r := ParseExecutableDefinition(lx);
      } else if IsTypeSystemKeyword(token.value) {
        r := Err(NotImplemented(TypeSystemDefinition));
      } else {
        r := Err(Unexpected(token));
      }
    } else if lx.Peek(BRACE_L) {
      r := ParseExecutableDefinition(lx);
    } else {
      r := Err(NotImplemented(NonNameDefinition));
    }
  }

  /** `parseDocument`, on a lexer that has just been made. */
  method ParseDocument(lx: Lexer) returns (r: Result<Document>)
    requires lx.Valid() && lx.pos == 0
    modifies lx
    ensures r == G.ParseDocument(lx.tokens)
  {
    var defs :- Many(lx, SOF, G.DefinitionParser, EOF);
    r := Ok(Document(G.DefinitionsOf(defs)));
  }

  /** `parse`: make a lexer over the tokens and parse a document. */
  method Parse(toks: seq<Token>) returns (r: Result<Document>)
    ensures r == G.ParseDocument(toks)
  {
    var lx := new Lexer(toks);
    r := ParseDocument(lx);
  }
}
