/** Properties of the list combinators `any` and `many`.

    Every list in the grammar pairs an element parser with a closing token
    that the element parser cannot start with.  For those pairs `many` is
    `any` restricted to non-empty lists, and an empty pair of delimiters is
    accepted by `any` and refused by `many`. */
module CombinatorProperties {
  import opened Tokens
  import opened Ast
  import opened Results
  import opened Cursor
  import G = Grammar

  /** The element parser and closing token of each list the grammar reads. */
  predicate ClosesList(e: G.ElementParser, close: TokenKind) {
    match e
    case ValueLiteral(_) => close == BRACKET_R
    case ArgumentParser(_) => close == PAREN_R
    case VariableDefinitionParser => close == PAREN_R
    case SelectionParser => close == BRACE_R
    case DefinitionParser => close == EOF
  }

  /** No element of such a list starts with its closing token. */
  lemma ElementRejectsClose(toks: seq<Token>, e: G.ElementParser, close: TokenKind, pos: nat)
    requires pos <= |toks| && ClosesList(e, close) && Peek(toks, close, pos)
    ensures G.ParseElement(toks, e, pos).Err?
  {
    match e
    case ValueLiteral(c) =>
      assert G.ParseValue(toks, c, pos) == Err(Unexpected(Current(toks, pos)));
    case ArgumentParser(c) =>
      assert G.ParseArgument(toks, c, pos).Err?;
    case VariableDefinitionParser =>
      assert G.ParseVariableDefinition(toks, pos).Err?;
    case SelectionParser =>
      assert G.ParseSelection(toks, pos).Err?;
    case DefinitionParser =>
      assert G.ParseDefinition(toks, pos) == Err(NotImplemented(NonNameDefinition));
  }

  /** `any` on an empty pair of delimiters is the empty list, both consumed. */
  lemma AnyEmpty(toks: seq<Token>, open: TokenKind, e: G.ElementParser, close: TokenKind, pos: nat)
    requires pos + 1 < |toks| && open != EOF && close != EOF
    requires Peek(toks, open, pos) && Peek(toks, close, pos + 1)
    ensures G.Any(toks, open, e, close, pos) == Ok(Parsed([], pos + 2))
  {
    assert G.Tail(toks, e, close, pos + 1) == Ok(Parsed([], pos + 2));
  }

  /** After the first element the two loops are the same. */
  lemma TailIsOneOrMore(toks: seq<Token>, e: G.ElementParser, close: TokenKind, pos: nat)
    requires pos <= |toks| && !Peek(toks, close, pos)
    ensures G.Tail(toks, e, close, pos) == G.OneOrMore(toks, e, close, pos)
  {
  }

  /** After `open`, `any` is the shared loop and `many` one element and then that loop. */
  lemma Opened(toks: seq<Token>, open: TokenKind, e: G.ElementParser, close: TokenKind, pos: nat)
    requires pos <= |toks| && open != EOF && Peek(toks, open, pos)
    ensures G.Any(toks, open, e, close, pos) == G.Tail(toks, e, close, pos + 1)
    ensures G.Many(toks, open, e, close, pos) == G.OneOrMore(toks, e, close, pos + 1)
  {
  }

  /** When the list is closed at once, `many` fails and `any` gives nothing. */
  lemma ClosedAtOnce(toks: seq<Token>, e: G.ElementParser, close: TokenKind, pos: nat)
    requires pos <= |toks| && ClosesList(e, close) && Peek(toks, close, pos)
    ensures G.OneOrMore(toks, e, close, pos).Err?
    ensures G.Tail(toks, e, close, pos).Ok? && G.Tail(toks, e, close, pos).value.node == []
  {
    ElementRejectsClose(toks, e, close, pos);
  }

  /** `many` succeeds exactly when `any` does with at least one element, and
      then gives the same list and position. */
  lemma ManyIsNonEmptyAny(toks: seq<Token>, open: TokenKind, e: G.ElementParser, close: TokenKind, pos: nat)
    requires pos <= |toks| && open != EOF && ClosesList(e, close)
    ensures G.Many(toks, open, e, close, pos).Ok? <==>
      G.Any(toks, open, e, close, pos).Ok? && |G.Any(toks, open, e, close, pos).value.node| >= 1
    ensures G.Many(toks, open, e, close, pos).Ok? ==> G.Many(toks, open, e, close, pos) == G.Any(toks, open, e, close, pos)
  {
    if Peek(toks, open, pos) {
      Opened(toks, open, e, close, pos);
      if Peek(toks, close, pos + 1) {
        ClosedAtOnce(toks, e, close, pos + 1);
      } else {
        TailIsOneOrMore(toks, e, close, pos + 1);
      }
    }
  }

  /** Hence an empty selection set `{}` is refused at the `}`. */
  lemma EmptySelectionSet(toks: seq<Token>, pos: nat)
    requires pos + 1 < |toks| && Peek(toks, BRACE_L, pos) && Peek(toks, BRACE_R, pos + 1)
    ensures G.ParseSelectionSet(toks, pos) == Err(ExpectedKind(NAME, toks[pos + 1]))
  {
    var err := ExpectedKind(NAME, toks[pos + 1]);
    assert G.ParseSelection(toks, pos + 1) == Err(err);
    assert G.ParseElement(toks, G.SelectionParser, pos + 1) == Err(err);
    assert G.OneOrMore(toks, G.SelectionParser, BRACE_R, pos + 1) == Err(err);
    assert G.Many(toks, BRACE_L, G.SelectionParser, BRACE_R, pos) == Err(err);
  }

  /** And so is an empty argument list `()`. */
  lemma EmptyArguments(toks: seq<Token>, isConst: bool, pos: nat)
    requires pos + 1 < |toks| && Peek(toks, PAREN_L, pos) && Peek(toks, PAREN_R, pos + 1)
    ensures G.ParseArguments(toks, isConst, pos) == Err(ExpectedKind(NAME, toks[pos + 1]))
  {
    var err := ExpectedKind(NAME, toks[pos + 1]);
    assert G.ParseArgument(toks, isConst, pos + 1) == Err(err);
    assert G.ParseElement(toks, G.ArgumentParser(isConst), pos + 1) == Err(err);
    assert G.OneOrMore(toks, G.ArgumentParser(isConst), PAREN_R, pos + 1) == Err(err);
    assert G.Many(toks, PAREN_L, G.ArgumentParser(isConst), PAREN_R, pos) == Err(err);
  }

  /** And an empty variable list `()`. */
  lemma EmptyVariableDefinitions(toks: seq<Token>, pos: nat)
    requires pos + 1 < |toks| && Peek(toks, PAREN_L, pos) && Peek(toks, PAREN_R, pos + 1)
    ensures G.ParseVariableDefinitions(toks, pos) == Err(ExpectedKind(DOLLAR, toks[pos + 1]))
  {
    var err := ExpectedKind(DOLLAR, toks[pos + 1]);
    assert G.ParseVariableDefinition(toks, pos + 1) == Err(err);
    assert G.ParseElement(toks, G.VariableDefinitionParser, pos + 1) == Err(err);
    assert G.OneOrMore(toks, G.VariableDefinitionParser, PAREN_R, pos + 1) == Err(err);
    assert G.Many(toks, PAREN_L, G.VariableDefinitionParser, PAREN_R, pos) == Err(err);
  }

  /** While an empty list literal `[]` is the empty list. */
  lemma EmptyList(toks: seq<Token>, isConst: bool, pos: nat)
    requires pos + 1 < |toks| && Peek(toks, BRACKET_L, pos) && Peek(toks, BRACKET_R, pos + 1)
    ensures G.ParseValue(toks, isConst, pos) == Ok(Parsed(List([]), pos + 2))
  {
    AnyEmpty(toks, BRACKET_L, G.ValueLiteral(isConst), BRACKET_R, pos);
    assert G.ParseList(toks, isConst, pos) == Ok(Parsed(List([]), pos + 2));
  }

  /** The shared loop stops just after its closing token, or at the end of
      the tokens when that token is the EOF read past the end. */
  lemma {:induction false} TailStopsAtClose(toks: seq<Token>, e: G.ElementParser, close: TokenKind, pos: nat)
    requires pos <= |toks| && G.Tail(toks, e, close, pos).Ok?
    ensures var next := G.Tail(toks, e, close, pos).value.next;
      (0 < next && Peek(toks, close, next - 1)) || (next == |toks| && Peek(toks, close, |toks|))
    decreases |toks| - pos
  {
    if !Peek(toks, close, pos) {
      var x := G.ParseElement(toks, e, pos).value;
      TailStopsAtClose(toks, e, close, x.next);
    }
  }
}
