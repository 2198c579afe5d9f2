# A verified model of the reason-graphql document parser

reason-graphql's server parses a GraphQL request with a hand-written
recursive-descent parser, `src/Parser.bs.js`. That file is the BuckleScript
output of the Reason source. The parser takes the token stream produced by
the lexer and builds a `Document`: a list of operation and fragment
definitions. The definitions hold selection sets, fields with aliases,
arguments and directives, fragment spreads, inline fragments, variable
definitions, type references and value literals. The parser keeps one piece
of state, the lexer's cursor, and moves it with the primitives `peek`,
`expect`, `skip`, `skipKeyword` and `expectKeyword`. Lists are read by two
combinators. `any` allows an empty list and `many` does not. The first
error ends the parse.

The model works on two levels.

- **Grammar** (`grammar.dfy`, with the primitives in `cursor.dfy`) is the
  parser as pure functions of the token sequence and a cursor position.
  Each production returns the node it built and the position after it, or
  the error that stopped it. The element parsers that the source hands to
  `any` and `many` as closures are data here (`Grammar.ElementParser`), and
  `Grammar.ParseElement` applies them.
- **Parser** (`parser.dfy`) is the parser as the source runs it. A `Lexer`
  object holds the tokens and a mutable cursor `pos`. Methods call each
  other on that object. `any`, `many`, `parseObject` and `parseDirectives`
  are `while` loops that grow a local list or map. Every method is proved to
  compute exactly what its Grammar or Cursor counterpart, named in the
  Model table, specifies (`Parser.ParseDocument` from a lexer at the start
  of the tokens, which is how `parse` calls it):
  - on success, the same node and the same final cursor;
  - on failure, the same error.

The properties are proved about Grammar. Because each method agrees with its
counterpart, they hold for the methods too. They cover these topics:

- the primitives (`cursor.dfy`);
- 32-bit integer conversion (`numbers.dfy`);
- value literals and the const flag (`values.dfy`);
- type references, with a printer as partner and round trips both ways
  (`types.dfy`);
- the list combinators (`lists.dfy`);
- selections, variable definitions, operations and documents
  (`document.dfy`);
- the directive-order finding (`findings.dfy`): the model follows the source's order, and the corrected productions live beside it.

Tokens are a kind from the lexer's closed enumeration, plus the lexeme text
(`tokens.dfy`). Reading past the last token yields an EOF token, and moving
forward stops at the end. A stream the lexer produces starts with SOF and
ends with EOF (`Tokens.LexedStream`).

## Model

| member | source | states |
|---|---|---|
| Cursor.Current | src/Parser.bs.js:17 | reading `lexer.token`: the token at the cursor, or EOF once the cursor is past the end |
| Cursor.Peek | src/Parser.bs.js:12-14 | `peek` holds exactly when the token at the cursor has the kind; past the end only EOF is seen |
| Cursor.Advance | src/Parser.bs.js:19 | `Lexer.advance` (called at lines 19, 29 and 39): inside the stream the cursor moves exactly one token on; at the end it stays; it never leaves the stream |
| Cursor.Expect | src/Parser.bs.js:16-25 | succeeds exactly when the current token has the kind asked for, returns that token and consumes exactly that one token; otherwise fails naming the kind expected and the token found |
| Cursor.Skip | src/Parser.bs.js:27-34 | returns true exactly when the current token has the kind; then one token is consumed, otherwise none |
| Cursor.SkipKeyword | src/Parser.bs.js:36-44 | returns true exactly when the current token is the NAME with that text; consumes one token then and none otherwise |
| Cursor.ExpectKeyword | src/Parser.bs.js:46-52 | succeeds exactly on that keyword and consumes it; otherwise fails naming the keyword and the token found |
| Numbers.IntOfString | src/Parser.bs.js:135-137 | a conversion that succeeds lies in the 32-bit range, and its sign follows the leading `-` |
| Numbers.DigitsRoundTrip | src/Parser.bs.js:135-137 | the decimal digits of a natural number read back as that number |
| Numbers.IntRoundTrip | src/Parser.bs.js:135-137 | the text of every 32-bit integer converts back to it |
| Numbers.OverflowFails | src/Parser.bs.js:135-137 | the text of every integer outside the 32-bit range fails to convert (with IntRoundTrip, this fixes the conversion on every integer's text) |
| Grammar.MapOfFields | src/Parser.bs.js:171-175 | folding the fields into a map gives no more keys than fields, and the last field's key always holds the last field's value (the `StringMap.add` of a later field overwrites) |
| Grammar.ParseName | src/Parser.bs.js:92-94 | succeeds exactly on a NAME, giving its text and consuming one token |
| Grammar.ParseNamedType | src/Parser.bs.js:96-98 | succeeds exactly on a NAME, giving the named type of that text |
| Grammar.ParseVariable | src/Parser.bs.js:100-103 | succeeds exactly on `$` followed by a NAME, giving the variable of that name after two tokens |
| Grammar.ParseStringLiteral | src/Parser.bs.js:86-90 | always succeeds with the current token's text as a string value, consuming that token |
| Grammar.ParseOperationType | src/Parser.bs.js:262-275 | succeeds exactly on `query`, `mutation` or `subscription`, and the type returned matches the word |
| Grammar.ParseFragmentName | src/Parser.bs.js:315-322 | succeeds exactly on a NAME other than `on`; `on` is refused as unexpected |
| Grammar.ParseTypeReference | src/Parser.bs.js:189-204 | a reference that parses consumes at least one token |
| Grammar.ParseBaseType | src/Parser.bs.js:190-197 | the part before a `!` consumes at least one token and is never itself non-null |
| Grammar.ParseElement | src/Parser.bs.js:59-84 | the element parser passed to a list gives an element of its own sort and consumes at least one token |
| Grammar.Tail | src/Parser.bs.js:59-69 | the shared loop yields elements of the right sort and stops just after the closing token |
| Grammar.Any | src/Parser.bs.js:59-69 | `any` needs its opening token and consumes at least that; its elements are of the element parser's sort |
| Grammar.Many | src/Parser.bs.js:71-84 | `many` needs its opening token, and the list it returns is never empty |
| Grammar.OneOrMore | src/Parser.bs.js:71-84 | the first element, then the shared loop: at least one element |
| Grammar.ParseValue | src/Parser.bs.js:105-160 | a value that parses consumes at least one token |
| Grammar.ParseList | src/Parser.bs.js:162-167 | a list literal gives a list value |
| Grammar.ParseObject | src/Parser.bs.js:169-177 | an object literal gives an object value |
| Grammar.ObjectFields | src/Parser.bs.js:169-177 | the field loop ends just after a `}` |
| Grammar.ParseObjectField | src/Parser.bs.js:179-187 | a field's key is the NAME it starts with |
| Grammar.ParseArgument | src/Parser.bs.js:206-228 | an argument's name is the NAME it starts with |
| Grammar.ParseArguments | src/Parser.bs.js:230-238 | with no `(` there are no arguments and nothing is consumed; after `(` at least one argument |
| Grammar.ParseDirective | src/Parser.bs.js:240-249 | a directive starts with `@` and is named by the NAME after it |
| Grammar.ParseDirectives | src/Parser.bs.js:251-260 | the loop stops exactly where no `@` follows; with no `@` it returns nothing and consumes nothing; otherwise at least one directive |
| Grammar.ParseVariableDefinition | src/Parser.bs.js:277-292 | the variable is named by the NAME after `$`, and there is never a default value |
| Grammar.ParseVariableDefinitions | src/Parser.bs.js:294-301 | with no `(` there are no definitions and nothing is consumed; after `(` at least one |
| Grammar.ParseSelectionSet | src/Parser.bs.js:303-305 | a selection set starts with `{` and is never empty |
| Grammar.ParseSelection | src/Parser.bs.js:307-313 | a selection consumes at least one token |
| Grammar.ParseFragment | src/Parser.bs.js:324-346 | a fragment starts with `...` and is a spread or an inline fragment, never a field (what an inline fragment holds, in the source's order of selection set then directives, is DocumentProperties.InlineFragmentShape) |
| Grammar.ParseAliasAndName | src/Parser.bs.js:349-356 | an alias is present exactly when `:` follows the first NAME; then the alias is that NAME and the name the one after `:` |
| Grammar.ParseField | src/Parser.bs.js:348-374 | a field production gives a field |
| Grammar.ParseOperationDefinition | src/Parser.bs.js:376-412 | an operation production gives an operation |
| Grammar.ParseFragmentDefinition | src/Parser.bs.js:414-432 | a fragment definition starts with `fragment` and gives a fragment (what it holds, in the source's order of selection set then directives, is DocumentProperties.FragmentDefinitionShape) |
| Grammar.ParseExecutableDefinition | src/Parser.bs.js:434-453 | an executable definition consumes at least one token |
| Grammar.ParseDefinition | src/Parser.bs.js:455-483 | a definition consumes at least one token |
| Grammar.ParseDocument | src/Parser.bs.js:485-487 | a document needs SOF and holds at least one definition |
| Parser.Lexer.constructor | src/Parser.bs.js:489-491 | a new lexer holds the given tokens with the cursor at the start |
| Parser.Lexer.CurrentToken | src/Parser.bs.js:17 | `lexer.token`: the token at the cursor, or an EOF token past the end |
| Parser.Lexer.Peek | src/Parser.bs.js:12-14 | `peek` on the lexer is Cursor.Peek at its cursor: the kind of the token there |
| Parser.Lexer.Advance | src/Parser.bs.js:29 | the cursor moves as Cursor.Advance says |
| Parser.Lexer.Expect | src/Parser.bs.js:16-25 | returns and moves the cursor as Cursor.Expect says, error included |
| Parser.Lexer.Skip | src/Parser.bs.js:27-34 | returns and moves the cursor as Cursor.Skip says |
| Parser.Lexer.SkipKeyword | src/Parser.bs.js:36-44 | returns and moves the cursor as Cursor.SkipKeyword says |
| Parser.Lexer.ExpectKeyword | src/Parser.bs.js:46-52 | returns and moves the cursor as Cursor.ExpectKeyword says, error included |
| Parser.ParseName | src/Parser.bs.js:92-94 | agrees with Grammar.ParseName: same result, same cursor after success |
| Parser.ParseNamedType | src/Parser.bs.js:96-98 | agrees with Grammar.ParseNamedType |
| Parser.ParseVariable | src/Parser.bs.js:100-103 | agrees with Grammar.ParseVariable |
| Parser.ParseStringLiteral | src/Parser.bs.js:86-90 | agrees with Grammar.ParseStringLiteral |
| Parser.ParseOperationType | src/Parser.bs.js:262-275 | agrees with Grammar.ParseOperationType |
| Parser.ParseFragmentName | src/Parser.bs.js:315-322 | agrees with Grammar.ParseFragmentName |
| Parser.ParseTypeReference | src/Parser.bs.js:189-204 | agrees with Grammar.ParseTypeReference |
| Parser.ParseElement | src/Parser.bs.js:59-84 | applying an element parser agrees with Grammar.ParseElement |
| Parser.Tail | src/Parser.bs.js:61-68 | the `while` loop that collects elements until the closing token agrees with Grammar.Tail |
| Parser.Any | src/Parser.bs.js:59-69 | `any` agrees with Grammar.Any |
| Parser.Many | src/Parser.bs.js:71-84 | `many` agrees with Grammar.Many |
| Parser.OneOrMore | src/Parser.bs.js:73-83 | the first element and then the loop agree with Grammar.OneOrMore |
| Parser.ParseValueLiteral | src/Parser.bs.js:105-160 | agrees with Grammar.ParseValue |
| Parser.ParseList | src/Parser.bs.js:162-167 | agrees with Grammar.ParseList |
| Parser.ParseObject | src/Parser.bs.js:169-177 | the loop that adds each field to the map agrees with Grammar.ParseObject |
| Parser.ParseObjectField | src/Parser.bs.js:179-187 | agrees with Grammar.ParseObjectField |
| Parser.ParseArgument | src/Parser.bs.js:206-228 | agrees with Grammar.ParseArgument, for both values of the const flag |
| Parser.ParseArguments | src/Parser.bs.js:230-238 | agrees with Grammar.ParseArguments |
| Parser.ParseDirective | src/Parser.bs.js:240-249 | agrees with Grammar.ParseDirective |
| Parser.ParseDirectives | src/Parser.bs.js:251-260 | the loop that runs while `@` follows agrees with Grammar.ParseDirectives |
| Parser.ParseVariableDefinition | src/Parser.bs.js:277-292 | agrees with Grammar.ParseVariableDefinition |
| Parser.ParseVariableDefinitions | src/Parser.bs.js:294-301 | agrees with Grammar.ParseVariableDefinitions |
| Parser.ParseSelectionSet | src/Parser.bs.js:303-305 | agrees with Grammar.ParseSelectionSet |
| Parser.ParseSelection | src/Parser.bs.js:307-313 | agrees with Grammar.ParseSelection |
| Parser.ParseFragment | src/Parser.bs.js:324-346 | agrees with Grammar.ParseFragment |
| Parser.ParseAliasAndName | src/Parser.bs.js:349-356 | agrees with Grammar.ParseAliasAndName |
| Parser.ParseField | src/Parser.bs.js:348-374 | agrees with Grammar.ParseField |
| Parser.ParseOperationDefinition | src/Parser.bs.js:376-412 | agrees with Grammar.ParseOperationDefinition |
| Parser.ParseFragmentDefinition | src/Parser.bs.js:414-432 | agrees with Grammar.ParseFragmentDefinition |
| Parser.ParseExecutableDefinition | src/Parser.bs.js:434-453 | agrees with Grammar.ParseExecutableDefinition |
| Parser.ParseDefinition | src/Parser.bs.js:455-483 | agrees with Grammar.ParseDefinition |
| Parser.ParseDocument | src/Parser.bs.js:485-487 | gives exactly Grammar.ParseDocument |
| Parser.Parse | src/Parser.bs.js:489-491 | a lexer over the tokens, then the document: exactly Grammar.ParseDocument |
| ValueProperties.DollarDispatch | src/Parser.bs.js:109-114 | `$` is refused as unexpected under the const flag; without it, it succeeds exactly when a NAME follows, giving that variable |
| ValueProperties.NameDispatch | src/Parser.bs.js:119-134 | a NAME is `Boolean(true)`, `Boolean(false)`, `Null`, or otherwise `Enum` of its text, whatever the flag |
| ValueProperties.IntDispatch | src/Parser.bs.js:135-137 | an INT token gives the converted integer, or fails with a conversion error when the conversion fails |
| ValueProperties.IntLiteralRoundTrip | src/Parser.bs.js:135-137 | the lexeme of every 32-bit integer parses as that integer |
| ValueProperties.TextDispatch | src/Parser.bs.js:138-142 | FLOAT and STRING tokens give values that keep their text |
| ValueProperties.OtherKindsUnexpected | src/Parser.bs.js:143-157 | punctuation, SOF and EOF, including reading past the end, fail as unexpected |
| ValueProperties.ConstValue | src/Parser.bs.js:105-187 | a value read under the const flag holds no variable anywhere, and reads the same without the flag |
| ValueProperties.ConstList | src/Parser.bs.js:162-167 | the const flag reaches every list element |
| ValueProperties.ConstFields | src/Parser.bs.js:169-187 | the const flag reaches every object field |
| ValueProperties.MapOfFieldsKeys | src/Parser.bs.js:169-177 | the object's keys are exactly the keys written |
| ValueProperties.MapOfFieldsLastWins | src/Parser.bs.js:169-177 | a field with no later field of the same key gives the value stored under that key |
| ValueProperties.MapOfFieldsValues | src/Parser.bs.js:169-177 | every stored value was written as some field's value |
| ValueProperties.MapOfFieldsKeeps | src/Parser.bs.js:169-177 | a map built from constant fields holds only constants |
| ValueProperties.EmptyObject | src/Parser.bs.js:169-177 | `{}` is the empty object and consumes both braces |
| ValueProperties.FieldThen | src/Parser.bs.js:179-187 | a field is its NAME, `:`, and the value after it |
| ValueProperties.ObjectDispatch | src/Parser.bs.js:117-118 | at `{` the value is the object of the fields read up to `}`, or the error those fields met |
| ValueProperties.ObjectLastWins | src/Parser.bs.js:169-177 | in an object literal that parses, the keys are those written, and each key maps to its last field's value |
| ValueProperties.OverwrittenVariableFields | src/Parser.bs.js:169-187 | `{ a: $x a: b }` reads as two fields in the order written |
| ValueProperties.OverwrittenVariableObject | src/Parser.bs.js:169-177 | without the const flag, the second `a` replaces the variable |
| ValueProperties.ConstCheckedBeforeOverwrite | src/Parser.bs.js:109-114 | the const check applies to the text: `{ a: $x a: b }` fails at `$` under the flag, although its result without the flag holds no variable |
| TypeProperties.NamedStep | src/Parser.bs.js:190-197 | a NAME is a named type of one token |
| TypeProperties.ListStep | src/Parser.bs.js:190-197 | `[`, an element type and `]` give the list of that type |
| TypeProperties.BangStep | src/Parser.bs.js:198-203 | a `!` after the base wraps it in non-null and is consumed; anything else leaves the base alone |
| TypeProperties.TypeRoundTrip | src/Parser.bs.js:189-204 | printing a well-formed reference and parsing the tokens gives the reference back and consumes exactly the printed tokens |
| TypeProperties.BaseRoundTrip | src/Parser.bs.js:190-197 | the same for the part before the `!` |
| TypeProperties.ParsedTypePrints | src/Parser.bs.js:189-204 | a parsed reference is well formed, with `!` never twice in a row, and was read from exactly the tokens that print it |
| TypeProperties.BasePrints | src/Parser.bs.js:190-197 | the same for the part before the `!` |
| TypeProperties.NonNullListOfNonNull | src/Parser.bs.js:189-204 | `[Int!]!` is a non-null list of non-null `Int` |
| TypeProperties.UnclosedList | src/Parser.bs.js:192-195 | `[Int` followed by a token that is neither `]` nor `!` fails at that token, expecting `]` |
| CombinatorProperties.ElementRejectsClose | src/Parser.bs.js:59-84 | no element parser the grammar uses accepts its list's closing token |
| CombinatorProperties.AnyEmpty | src/Parser.bs.js:59-69 | `any` on an empty pair of delimiters is the empty list, and both are consumed |
| CombinatorProperties.TailIsOneOrMore | src/Parser.bs.js:59-84 | after the first element `any` and `many` run the same loop |
| CombinatorProperties.Opened | src/Parser.bs.js:59-84 | after the opening token, `any` is the loop and `many` is one element followed by the loop |
| CombinatorProperties.ClosedAtOnce | src/Parser.bs.js:59-84 | a list closed at once fails under `many` and is empty under `any` |
| CombinatorProperties.ManyIsNonEmptyAny | src/Parser.bs.js:59-84 | `many` succeeds exactly when `any` does with at least one element, and then both give the same list and position |
| CombinatorProperties.EmptySelectionSet | src/Parser.bs.js:303-305 | `{}` as a selection set fails at the `}`, expecting a NAME |
| CombinatorProperties.EmptyArguments | src/Parser.bs.js:230-238 | `()` as arguments fails at the `)`, expecting a NAME |
| CombinatorProperties.EmptyVariableDefinitions | src/Parser.bs.js:294-301 | `()` as variable definitions fails at the `)`, expecting `$` |
| CombinatorProperties.EmptyList | src/Parser.bs.js:162-167 | `[]` is the empty list value |
| CombinatorProperties.TailStopsAtClose | src/Parser.bs.js:61-68 | the loop stops just after its closing token, or at the end of the stream when that token is EOF |
| DocumentProperties.FieldAlias | src/Parser.bs.js:349-356 | a field has an alias exactly when `:` follows its first NAME; then the alias is that NAME and the name the one after `:`; otherwise the name is the first NAME |
| DocumentProperties.FieldSelectionSet | src/Parser.bs.js:357-373 | a field's selection set is empty exactly when no `{` follows its arguments and directives, and an empty one ends the field there |
| DocumentProperties.SelectionDispatch | src/Parser.bs.js:307-346 | a selection is a field exactly when it does not start with `...`; a spread is named by the next token and never `on`; an inline fragment has `on` and then its type condition |
| DocumentProperties.SpreadOfName | src/Parser.bs.js:324-335 | `...` followed by a NAME other than `on` is a spread of that fragment with the directives after it |
| DocumentProperties.InlineNeedsTypeCondition | src/Parser.bs.js:336-344 | `... {` fails at the `{`, expecting a NAME |
| DocumentProperties.ConstArgumentTail | src/Parser.bs.js:218-238 | arguments read under the const flag hold no variable, up to the closing `)` |
| DocumentProperties.ConstArgument | src/Parser.bs.js:218-228 | a constant argument's value holds no variable |
| DocumentProperties.ConstArguments | src/Parser.bs.js:230-238 | an argument list read under the const flag holds no variable |
| DocumentProperties.ConstDirectivesHold | src/Parser.bs.js:251-260 | directives read under the const flag hold no variable |
| DocumentProperties.VariableDefinitionShape | src/Parser.bs.js:277-292 | a variable definition is the variable after `$`, the type after `:`, no default value, and constant directives |
| DocumentProperties.DefinitionDispatch | src/Parser.bs.js:434-483 | the first token decides: `extend` and the type-system keywords fail as not implemented; `fragment` and the operation keywords and `{` go to their productions; any other NAME is unexpected; any other token fails as not implemented |
| DocumentProperties.ShorthandQuery | src/Parser.bs.js:376-390 | a leading `{` is an anonymous query without variables or directives, holding that selection set |
| DocumentProperties.ShorthandEquivalence | src/Parser.bs.js:376-412 | `query` followed directly by `{` gives the same definition, ending at the same place, as the bare selection set: an anonymous query with no variable definitions or directives |
| DocumentProperties.NamedOperation | src/Parser.bs.js:391-412 | an operation keyword fixes the operation type, and the operation is named exactly when a NAME follows the keyword |
| DocumentProperties.FragmentDefinitionShape | src/Parser.bs.js:414-432 | a fragment definition that parses is `fragment`, a NAME other than `on`, `on`, the type-condition NAME, then its selection set and after it its directives; it ends after the directives |
| DocumentProperties.InlineFragmentShape | src/Parser.bs.js:336-344 | an inline fragment that parses is `...`, `on`, the type-condition NAME, then its selection set and after it its directives; it ends after the directives |
| DocumentProperties.DocumentNeedsStart | src/Parser.bs.js:485-487 | a stream that does not start with SOF fails there |
| DocumentProperties.EmptyDocument | src/Parser.bs.js:485-487 | SOF followed by EOF fails: a document needs at least one definition |
| DocumentProperties.DocumentReadsAll | src/Parser.bs.js:485-487 | on a lexed stream, a document that parses has read every token up to and including EOF |
| Findings.ParseFragmentCorrected | src/Parser.bs.js:324-346 | the fragment production with the directives read before the selection set, as the GraphQL grammar orders them; never a field |
| Findings.ParseFragmentDefinitionCorrected | src/Parser.bs.js:414-432 | the fragment definition with the directives read before the selection set, as the GraphQL grammar orders them |
| Findings.InlineDirectiveRefusedAsWritten | src/Parser.bs.js:336-344 | as written, `... on T @d { … }` always fails at the `@`, expecting `{` |
| Findings.DirectiveAfterSelectionSet | src/Parser.bs.js:336-344 | as written, `... on T { … } @d` keeps the directive in the inline fragment; corrected, the fragment ends before the `@` with no directives |
| Findings.InlineDirectiveAccepted | src/Parser.bs.js:336-344 | corrected, the same fragment is accepted whenever its directives and selection set are, and carries those directives |
| Findings.DefinitionDirectiveRefusedAsWritten | src/Parser.bs.js:414-432 | as written, `fragment F on T @d { … }` always fails at the `@`, expecting `{` |
| Findings.DefinitionDirectiveAccepted | src/Parser.bs.js:414-432 | corrected, the same definition is accepted whenever its directives and selection set are, and carries those directives |

## Left out

- The lexer is not part of this model. That covers character scanning, string unescaping and the numeric lexical rules. The parser is given the token sequence the lexer would produce, and `Lexer.make` becomes the `Parser.Lexer` constructor over that sequence.
- Token positions (line and column) are left out. They only feed error messages.
- Error message text is left out: `printToken`, `strOfTokenKind` and the debug `console.log`. Each failure is a structured error value naming the kind or keyword expected and the token found.
- Exceptions are modelled as values. `failwith` and the `unexpected` helper become the `Err` case of a `Result`, carrying `Unexpected`, `ExpectedKind`, `ExpectedKeyword`, `IntConversion` or `NotImplemented`.
- Floating-point conversion is left out. A FLOAT value keeps its lexeme text instead of the converted number.
- Numbers.IntOfString: only decimal text with an optional leading `-` is modelled. That is the only form the lexer produces. The runtime conversion's other accepted forms (hexadecimal, octal, binary prefixes and `_` separators) are not part of this model, because the runtime's source is not part of it either.
- Type-system definitions and extensions are modelled only as the failures the parser reports for them. The parser does not implement them.
- Default values of variable definitions are left out. The parser never reads them: it always leaves `defaultValue` absent and does not look for `=`.
- The list loops append each element to a sequence. The source conses onto a list and reverses it at the end. Both give the elements in source order.
- Object fields are folded into a `map`, which stands in for the runtime's `StringMap`. Its `add` replaces an existing key, and the map does the same.
- Grammar.ParseBaseType is not a separate function in the source. It is the part of `parseTypeReference` before the `!` check (lines 190-197), split out so that the round-trip proofs can recurse on it.
- Grammar.ParseTypeReference: its own contract only states that it consumes input. What it produces is stated by the round-trip lemmas in TypeProperties.
- Several Grammar functions' own contracts state only their shape (what kind of node, how many tokens). What the node holds is stated by the lemmas in ValueProperties, TypeProperties, CombinatorProperties and DocumentProperties.
- Grammar.Any and Grammar.Many require an opening token other than EOF. Every caller in the source passes punctuation or SOF.

## Findings

| source | as written | input that shows it | evidently intended | confidence | as-written member | corrected member |
|---|---|---|---|---|---|---|
| src/Parser.bs.js:336-344 | an inline fragment reads its selection set and then its directives | `... on User @include(if: true) { id }` fails at the `@`, expecting `{` | directives come before the selection set, as in the GraphQL grammar (InlineFragment: `... TypeCondition? Directives? SelectionSet`) | not executed | Grammar.ParseFragment, Findings.InlineDirectiveRefusedAsWritten | Findings.ParseFragmentCorrected, Findings.InlineDirectiveAccepted |
| src/Parser.bs.js:414-432 | a fragment definition reads its selection set and then its directives | `fragment F on User @deprecated { id }` fails at the `@`, expecting `{` | directives come before the selection set, as in the GraphQL grammar (FragmentDefinition: `fragment FragmentName TypeCondition Directives? SelectionSet`) | not executed | Grammar.ParseFragmentDefinition, Findings.DefinitionDirectiveRefusedAsWritten | Findings.ParseFragmentDefinitionCorrected, Findings.DefinitionDirectiveAccepted |
