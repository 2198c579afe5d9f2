/** Directive order in fragments.

    The GraphQL grammar writes a fragment's directives before its selection
    set, in an inline fragment (`... on T @d { a }`) and in a fragment
    definition (`fragment F on T @d { a }`).  The parser reads them the other
    way round: selection set first, then directives, and Grammar models it
    that way.  The functions here are the productions corrected to the
    grammar's order; the lemmas show that as written a directive in its
    grammatical place is refused, and that the corrected productions accept it. */
module Findings {
  import opened Tokens
  import opened Ast
  import opened Results
  import opened Cursor
  import G = Grammar

  /** `parseFragment` corrected: directives, then selection set. */
  function ParseFragmentCorrected(toks: seq<Token>, pos: nat): (r: Result<Parsed<Selection>>)
    requires pos <= |toks|
    ensures r.Ok? ==> Peek(toks, SPREAD, pos) && pos < r.value.next <= |toks| && !r.value.node.Field?
  {
    var spread :- Expect(toks, SPREAD, pos);
    var on := SkipKeyword(toks, "on", spread.next);
    if !on.node && Peek(toks, NAME, on.next) then
      var name := G.ParseFragmentName(toks, on.next).value;
      var dirs :- G.ParseDirectives(toks, false, name.next);
      Ok(Parsed(FragmentSpread(name.node, dirs.node), dirs.next))
    else
      var typeCondition :- G.ParseName(toks, on.next);
      var dirs :- G.ParseDirectives(toks, false, typeCondition.next);
      var sels :- G.ParseSelectionSet(toks, dirs.next);
      Ok(Parsed(InlineFragment(typeCondition.node, sels.node, dirs.node), sels.next))
  }

  /** `parseFragmentDefinition` corrected: directives, then selection set. */
  function ParseFragmentDefinitionCorrected(toks: seq<Token>, pos: nat): (r: Result<Parsed<Definition>>)
    requires pos <= |toks|
    ensures r.Ok? ==> AtKeyword(toks, "fragment", pos) && pos < r.value.next <= |toks| && r.value.node.Fragment?
  {
    var kw :- ExpectKeyword(toks, "fragment", pos);
    var name :- G.ParseFragmentName(toks, kw.next);
    var on :- ExpectKeyword(toks, "on", name.next);
    var typeCondition :- G.ParseName(toks, on.next);
    var dirs :- G.ParseDirectives(toks, false, typeCondition.next);
    var sels :- G.ParseSelectionSet(toks, dirs.next);
    Ok(Parsed(Fragment(FragmentDefinition(name.node, typeCondition.node, sels.node, dirs.node)), sels.next))
  }

  /** `... on T` followed by `@`. */
  predicate InlineHeadThenDirective(toks: seq<Token>, pos: nat) {
    pos + 3 < |toks| && Peek(toks, SPREAD, pos) && AtKeyword(toks, "on", pos + 1)
    && Peek(toks, NAME, pos + 2) && Peek(toks, AT, pos + 3)
  }

  /** `fragment F on T` followed by `@`. */
  predicate DefinitionHeadThenDirective(toks: seq<Token>, pos: nat) {
    pos + 4 < |toks| && AtKeyword(toks, "fragment", pos)
    && Peek(toks, NAME, pos + 1) && Current(toks, pos + 1).value != "on"
    && AtKeyword(toks, "on", pos + 2) && Peek(toks, NAME, pos + 3) && Peek(toks, AT, pos + 4)
  }

  /** As written, every inline fragment with a directive in its place fails at the `@`. */
  lemma InlineDirectiveRefusedAsWritten(toks: seq<Token>, pos: nat)
    requires InlineHeadThenDirective(toks, pos)
    ensures G.ParseFragment(toks, pos) == Err(ExpectedKind(BRACE_L, toks[pos + 3]))
  {
    assert G.ParseSelectionSet(toks, pos + 3) == Err(ExpectedKind(BRACE_L, toks[pos + 3]));
  }

  /** Corrected, the same fragment is accepted whenever its directives and
      selection set are, and it carries those directives. */
  lemma InlineDirectiveAccepted(toks: seq<Token>, pos: nat)
    requires InlineHeadThenDirective(toks, pos)
    requires G.ParseDirectives(toks, false, pos + 3).Ok?
    requires G.ParseSelectionSet(toks, G.ParseDirectives(toks, false, pos + 3).value.next).Ok?
    ensures var dirs := G.ParseDirectives(toks, false, pos + 3).value;
      var sels := G.ParseSelectionSet(toks, dirs.next).value;
      ParseFragmentCorrected(toks, pos) == Ok(Parsed(InlineFragment(toks[pos + 2].value, sels.node, dirs.node), sels.next))
      && |dirs.node| >= 1
  {
  }

  /** The other way round: as written, a directive after the selection set
      belongs to the inline fragment, while the corrected production ends the
      fragment before it, with no directives. */
  lemma DirectiveAfterSelectionSet(toks: seq<Token>, pos: nat)
    requires pos + 2 < |toks| && Peek(toks, SPREAD, pos) && AtKeyword(toks, "on", pos + 1) && Peek(toks, NAME, pos + 2)
    requires G.ParseSelectionSet(toks, pos + 3).Ok?
    requires Peek(toks, AT, G.ParseSelectionSet(toks, pos + 3).value.next)
    requires G.ParseDirectives(toks, false, G.ParseSelectionSet(toks, pos + 3).value.next).Ok?
    ensures var sels := G.ParseSelectionSet(toks, pos + 3).value;
      var dirs := G.ParseDirectives(toks, false, sels.next).value;
      G.ParseFragment(toks, pos) == Ok(Parsed(InlineFragment(toks[pos + 2].value, sels.node, dirs.node), dirs.next))
      && |dirs.node| >= 1 && sels.next < dirs.next
      && ParseFragmentCorrected(toks, pos) == Ok(Parsed(InlineFragment(toks[pos + 2].value, sels.node, []), sels.next))
  {
    assert G.ParseDirectives(toks, false, pos + 3) == Ok(Parsed([], pos + 3));
  }

  /** As written, every fragment definition with a directive in its place fails at the `@`. */
  lemma DefinitionDirectiveRefusedAsWritten(toks: seq<Token>, pos: nat)
    requires DefinitionHeadThenDirective(toks, pos)
    ensures G.ParseFragmentDefinition(toks, pos) == Err(ExpectedKind(BRACE_L, toks[pos + 4]))
  {
    assert G.ParseSelectionSet(toks, pos + 4) == Err(ExpectedKind(BRACE_L, toks[pos + 4]));
  }

  /** Corrected, the same definition is accepted whenever its directives and
      selection set are, and it carries those directives. */
  lemma DefinitionDirectiveAccepted(toks: seq<Token>, pos: nat)
    requires DefinitionHeadThenDirective(toks, pos)
    requires G.ParseDirectives(toks, false, pos + 4).Ok?
    requires G.ParseSelectionSet(toks, G.ParseDirectives(toks, false, pos + 4).value.next).Ok?
    ensures var dirs := G.ParseDirectives(toks, false, pos + 4).value;
      var sels := G.ParseSelectionSet(toks, dirs.next).value;
      ParseFragmentDefinitionCorrected(toks, pos) ==
        Ok(Parsed(Fragment(FragmentDefinition(toks[pos + 1].value, toks[pos + 3].value, sels.node, dirs.node)), sels.next))
      && |dirs.node| >= 1
  {
  }
}
