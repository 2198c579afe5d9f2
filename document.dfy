/** Properties of selections, variable definitions, operations and the
    document: the lookahead that routes each production, what an alias is,
    when a field has a selection set, which directives must be constant, and
    what a document must start and end with. */
module DocumentProperties {
  import opened Tokens
  import opened Ast
  import opened Results
  import opened Cursor
  import G = Grammar
  import V = ValueProperties
  import L = CombinatorProperties

  // ---------------------------------------------------------------------
  // Fields

  /** A field has an alias exactly when `:` follows its first NAME; the
      alias is then that NAME and the field's name the one after the `:`. */
  lemma FieldAlias(toks: seq<Token>, pos: nat)
    requires pos <= |toks| && G.ParseField(toks, pos).Ok?
    ensures var f := G.ParseField(toks, pos).value.node;
      (f.alias.Some? <==> Peek(toks, COLON, pos + 1)) &&
      (f.alias.Some? ==> f.alias.value == Current(toks, pos).value && f.name == Current(toks, pos + 2).value) &&
      (f.alias.None? ==> f.name == Current(toks, pos).value)
  {
    assert G.ParseAliasAndName(toks, pos).Ok?;
  }

  /** Where a field's arguments and directives end. */
  function AfterDirectives(toks: seq<Token>, pos: nat): (q: Result<nat>)
    requires pos <= |toks|
    ensures q.Ok? ==> pos < q.value <= |toks|
  {
    var names :- G.ParseAliasAndName(toks, pos);
    var args :- G.ParseArguments(toks, false, names.next);
    var dirs :- G.ParseDirectives(toks, false, args.next);
    Ok(dirs.next)
  }

  /** A field's selection set is empty exactly when no `{` follows its
      arguments and directives; an empty one ends the field there. */
  lemma FieldSelectionSet(toks: seq<Token>, pos: nat)
    requires pos <= |toks| && G.ParseField(toks, pos).Ok?
    ensures AfterDirectives(toks, pos).Ok?
    ensures var f := G.ParseField(toks, pos).value;
      var q := AfterDirectives(toks, pos).value;
      (f.node.selectionSet == [] <==> !Peek(toks, BRACE_L, q)) &&
      (f.node.selectionSet == [] ==> f.next == q)
  {
  }

  // ---------------------------------------------------------------------
  // Selections

  /** `...` starts a fragment, anything else a field; a fragment spread is
      never named `on`. */
  lemma SelectionDispatch(toks: seq<Token>, pos: nat)
    requires pos <= |toks| && G.ParseSelection(toks, pos).Ok?
    ensures var s := G.ParseSelection(toks, pos).value.node;
      (s.Field? <==> !Peek(toks, SPREAD, pos)) &&
      (s.FragmentSpread? ==> s.name == Current(toks, pos + 1).value && s.name != "on") &&
      (s.InlineFragment? ==> AtKeyword(toks, "on", pos + 1) && s.typeCondition == Current(toks, pos + 2).value)
  {
    if Peek(toks, SPREAD, pos) {
      assert G.ParseSelection(toks, pos) == G.ParseFragment(toks, pos);
    }
  }

  /** After `...`, a NAME other than `on` is always a spread of that fragment. */
  lemma SpreadOfName(toks: seq<Token>, pos: nat)
    requires pos + 1 < |toks| && Peek(toks, SPREAD, pos) && Peek(toks, NAME, pos + 1)
    requires toks[pos + 1].value != "on"
    ensures var dirs := G.ParseDirectives(toks, false, pos + 2);
      G.ParseSelection(toks, pos) ==
        if dirs.Ok? then Ok(Parsed(FragmentSpread(toks[pos + 1].value, dirs.value.node), dirs.value.next))
        else Err(dirs.error)
  {
    assert G.ParseSelection(toks, pos) == G.ParseFragment(toks, pos);
  }

  /** An inline fragment needs its type condition: `... {` fails at the `{`. */
  lemma InlineNeedsTypeCondition(toks: seq<Token>, pos: nat)
    requires pos + 1 < |toks| && Peek(toks, SPREAD, pos) && Peek(toks, BRACE_L, pos + 1)
    ensures G.ParseSelection(toks, pos) == Err(ExpectedKind(NAME, toks[pos + 1]))
  {
    assert G.ParseSelection(toks, pos) == G.ParseFragment(toks, pos);
  }

  // ---------------------------------------------------------------------
  // Constant directives

  /** No argument among the elements holds a variable. */
  predicate NoVariableArguments(xs: seq<G.Element>) {
    forall i :: 0 <= i < |xs| ==> xs[i].ArgumentElement? && NoVariables(xs[i].argument.value)
  }

  /** Constant arguments up to the closing `)`. */
  lemma {:induction false} ConstArgumentTail(toks: seq<Token>, pos: nat)
    requires pos <= |toks| && G.Tail(toks, G.ArgumentParser(true), PAREN_R, pos).Ok?
    ensures NoVariableArguments(G.Tail(toks, G.ArgumentParser(true), PAREN_R, pos).value.node)
    decreases |toks| - pos
  {
    if !Peek(toks, PAREN_R, pos) {
      var a := G.ParseArgument(toks, true, pos).value;
      ConstArgument(toks, pos);
      ConstArgumentTail(toks, a.next);
      var rest := G.Tail(toks, G.ArgumentParser(true), PAREN_R, a.next).value.node;
      assert G.Tail(toks, G.ArgumentParser(true), PAREN_R, pos).value.node == [G.ArgumentElement(a.node)] + rest;
    }
  }

  /** A constant argument's value holds no variable. */
  lemma ConstArgument(toks: seq<Token>, pos: nat)
    requires pos <= |toks| && G.ParseArgument(toks, true, pos).Ok?
    ensures NoVariables(G.ParseArgument(toks, true, pos).value.node.value)
  {
    V.ConstValue(toks, pos + 2);
  }

  /** Arguments read with the const flag hold no variable. */
  lemma ConstArguments(toks: seq<Token>, pos: nat)
    requires pos <= |toks| && G.ParseArguments(toks, true, pos).Ok?
    ensures var args := G.ParseArguments(toks, true, pos).value.node;
      forall i :: 0 <= i < |args| ==> NoVariables(args[i].value)
  {
    if Peek(toks, PAREN_L, pos) {
      var e := G.ArgumentParser(true);
      assert G.OneOrMore(toks, e, PAREN_R, pos + 1).Ok?;
      var x := G.ParseElement(toks, e, pos + 1).value;
      var a := G.ParseArgument(toks, true, pos + 1).value;
      assert x == Parsed(G.ArgumentElement(a.node), a.next);
      ConstArgument(toks, pos + 1);
      ConstArgumentTail(toks, a.next);
      var rest := G.Tail(toks, e, PAREN_R, a.next).value.node;
      assert G.Many(toks, PAREN_L, e, PAREN_R, pos).value.node == [x.node] + rest;
    }
  }

  /** Directives read with the const flag hold no variable. */
  lemma {:induction false} ConstDirectivesHold(toks: seq<Token>, pos: nat)
    requires pos <= |toks| && G.ParseDirectives(toks, true, pos).Ok?
    ensures ConstDirectives(G.ParseDirectives(toks, true, pos).value.node)
    decreases |toks| - pos
  {
    if Peek(toks, AT, pos) {
      var d := G.ParseDirective(toks, true, pos).value;
      ConstArguments(toks, pos + 2);
      ConstDirectivesHold(toks, d.next);
      var rest := G.ParseDirectives(toks, true, d.next).value.node;
      assert G.ParseDirectives(toks, true, pos).value.node == [d.node] + rest;
    }
  }

  /** A variable definition is `$name : Type` with constant directives and
      no default value. */
  lemma VariableDefinitionShape(toks: seq<Token>, pos: nat)
    requires pos <= |toks| && G.ParseVariableDefinition(toks, pos).Ok?
    ensures G.ParseTypeReference(toks, pos + 3).Ok?
    ensures var d := G.ParseVariableDefinition(toks, pos).value.node;
      d.variable == Variable(Current(toks, pos + 1).value) && d.defaultValue == None &&
      d.typ == G.ParseTypeReference(toks, pos + 3).value.node && ConstDirectives(d.directives)
  {
    var t := G.ParseTypeReference(toks, pos + 3).value;
    ConstDirectivesHold(toks, t.next);
  }

  // ---------------------------------------------------------------------
  // Definitions

  /** What the first token of a definition decides. */
  lemma DefinitionDispatch(toks: seq<Token>, pos: nat)
    requires pos <= |toks|
    ensures var t := Current(toks, pos);
      var r := G.ParseDefinition(toks, pos);
      (t.kind == NAME && t.value == "extend" ==> r == Err(NotImplemented(TypeSystemExtension))) &&
      (t.kind == NAME && IsTypeSystemKeyword(t.value) ==> r == Err(NotImplemented(TypeSystemDefinition))) &&
      (t.kind == NAME && t.value == "fragment" ==> r == G.ParseFragmentDefinition(toks, pos)) &&
      (t.kind == NAME && IsOperationKeyword(t.value) ==> r == G.ParseOperationDefinition(toks, pos)) &&
      ((t.kind == NAME && t.value != "extend" && t.value != "fragment" && !IsOperationKeyword(t.value)
        && !IsTypeSystemKeyword(t.value)) ==> r == Err(Unexpected(t))) &&
      (t.kind == BRACE_L ==> r == G.ParseOperationDefinition(toks, pos)) &&
      (t.kind != NAME && t.kind != BRACE_L ==> r == Err(NotImplemented(NonNameDefinition)))
  {
  }

  /** A bare selection set is an anonymous query without variables or directives. */
  lemma ShorthandQuery(toks: seq<Token>, pos: nat)
    requires pos <= |toks| && Peek(toks, BRACE_L, pos)
    ensures var sels := G.ParseSelectionSet(toks, pos);
      G.ParseDefinition(toks, pos) ==
        if sels.Ok? then Ok(Parsed(Operation(OperationDefinition(Query, None, [], [], sels.value.node)), sels.value.next))
        else Err(sels.error)
  {
    assert G.ParseDefinition(toks, pos) == G.ParseOperationDefinition(toks, pos);
  }

  /** An operation keyword fixes the operation type, and the operation is
      named exactly when a NAME follows the keyword. */
  lemma NamedOperation(toks: seq<Token>, pos: nat)
    requires pos <= |toks| && Peek(toks, NAME, pos) && IsOperationKeyword(Current(toks, pos).value)
    requires G.ParseDefinition(toks, pos).Ok?
    ensures var d := G.ParseDefinition(toks, pos).value.node;
      var word := Current(toks, pos).value;
      d.Operation? &&
      (d.operation.operationType == Query <==> word == "query") &&
      (d.operation.operationType == Mutation <==> word == "mutation") &&
      (d.operation.operationType == Subscription <==> word == "subscription") &&
      (d.operation.name.Some? <==> Peek(toks, NAME, pos + 1)) &&
      (d.operation.name.Some? ==> d.operation.name.value == Current(toks, pos + 1).value)
  {
    assert G.ParseDefinition(toks, pos) == G.ParseOperationDefinition(toks, pos);
  }

  /** `query` directly followed by `{` is the shorthand spelled out: the same
      definition as the bare selection set, ending at the same place. */
  lemma ShorthandEquivalence(toks: seq<Token>, pos: nat)
    requires pos + 1 < |toks| && Peek(toks, NAME, pos) && toks[pos].value == "query" && Peek(toks, BRACE_L, pos + 1)
    ensures G.ParseDefinition(toks, pos) == G.ParseDefinition(toks, pos + 1)
  {
    assert G.ParseDefinition(toks, pos) == G.ParseOperationDefinition(toks, pos);
    assert G.ParseDefinition(toks, pos + 1) == G.ParseOperationDefinition(toks, pos + 1);
  }

  /** A fragment definition is `fragment`, a name other than `on`, `on`, the
      type condition, then its selection set and, after it, its directives. */
  lemma FragmentDefinitionShape(toks: seq<Token>, pos: nat)
    requires pos <= |toks| && G.ParseFragmentDefinition(toks, pos).Ok?
    ensures pos + 3 < |toks| && G.ParseSelectionSet(toks, pos + 4).Ok?
    ensures var sels := G.ParseSelectionSet(toks, pos + 4).value;
      G.ParseDirectives(toks, false, sels.next).Ok? &&
      var dirs := G.ParseDirectives(toks, false, sels.next).value;
      var p := G.ParseFragmentDefinition(toks, pos).value;
      Peek(toks, NAME, pos + 1) && toks[pos + 1].value != "on" && AtKeyword(toks, "on", pos + 2)
      && Peek(toks, NAME, pos + 3)
      && p.node.fragment == FragmentDefinition(toks[pos + 1].value, toks[pos + 3].value, sels.node, dirs.node)
      && p.next == dirs.next
  {
  }

  /** An inline fragment is `...`, `on`, the type condition, then its
      selection set and, after it, its directives. */
  lemma InlineFragmentShape(toks: seq<Token>, pos: nat)
    requires pos <= |toks| && G.ParseSelection(toks, pos).Ok? && G.ParseSelection(toks, pos).value.node.InlineFragment?
    ensures pos + 2 < |toks| && G.ParseSelectionSet(toks, pos + 3).Ok?
    ensures var sels := G.ParseSelectionSet(toks, pos + 3).value;
      G.ParseDirectives(toks, false, sels.next).Ok? &&
      var dirs := G.ParseDirectives(toks, false, sels.next).value;
      var p := G.ParseSelection(toks, pos).value;
      AtKeyword(toks, "on", pos + 1) && Peek(toks, NAME, pos + 2)
      && p.node == InlineFragment(toks[pos + 2].value, sels.node, dirs.node)
      && p.next == dirs.next
  {
    assert G.ParseSelection(toks, pos) == G.ParseFragment(toks, pos);
  }

  // ---------------------------------------------------------------------
  // Documents

  /** A document must start with SOF. */
  lemma DocumentNeedsStart(toks: seq<Token>)
    requires !Peek(toks, SOF, 0)
    ensures G.ParseDocument(toks) == Err(ExpectedKind(SOF, Current(toks, 0)))
  {
  }

  /** A document needs at least one definition: SOF then EOF fails. */
  lemma EmptyDocument(toks: seq<Token>)
    requires |toks| == 2 && toks[0].kind == SOF && toks[1].kind == EOF
    ensures G.ParseDocument(toks) == Err(NotImplemented(NonNameDefinition))
  {
    L.ElementRejectsClose(toks, G.DefinitionParser, EOF, 1);
    assert G.ParseDefinition(toks, 1) == Err(NotImplemented(NonNameDefinition));
    assert G.Many(toks, SOF, G.DefinitionParser, EOF, 0) == Err(NotImplemented(NonNameDefinition));
  }

  /** On a lexed stream a document runs to the end: every token is read. */
  lemma DocumentReadsAll(toks: seq<Token>)
    requires LexedStream(toks) && G.ParseDocument(toks).Ok?
    ensures G.Many(toks, SOF, G.DefinitionParser, EOF, 0).Ok?
    ensures G.Many(toks, SOF, G.DefinitionParser, EOF, 0).value.next == |toks|
  {
    L.ManyIsNonEmptyAny(toks, SOF, G.DefinitionParser, EOF, 0);
    L.TailStopsAtClose(toks, G.DefinitionParser, EOF, 1);
  }
}
