/** Tokens as the GraphQL lexer hands them to the parser.

    The lexer itself is not part of this model: the parser sees a finite
    sequence of tokens, each a kind from a closed enumeration and the text of
    its lexeme.  A well-formed stream starts with SOF and ends with EOF. */
module Tokens {

  /** The closed enumeration the parser switches on, in the lexer's order
      (SOF = 0 ... COMMENT = 20). */
  datatype TokenKind =
    | SOF | EOF | BANG | DOLLAR | AMP | PAREN_L | PAREN_R | SPREAD | COLON
    | EQUALS | AT | BRACKET_L | BRACKET_R | BRACE_L | PIPE | BRACE_R
    | NAME | INT | FLOAT | STRING | COMMENT

  /** A token: its kind and its lexeme (for STRING, the unescaped contents). */
  datatype Token = Token(kind: TokenKind, value: string)

  /** What the lexer keeps answering once it has reached the end of input. */
  const EndToken: Token := Token(EOF, "")

  /** The shape of a stream the lexer produces: SOF first, EOF last, and
      neither of them anywhere in between. */
  predicate LexedStream(toks: seq<Token>) {
    && |toks| >= 2
    && toks[0].kind == SOF
    && toks[|toks| - 1].kind == EOF
    && forall i :: 0 < i < |toks| - 1 ==> toks[i].kind != SOF && toks[i].kind != EOF
  }

  /** Keywords the executable grammar routes on. */
  predicate IsOperationKeyword(s: string) {
    s == "query" || s == "mutation" || s == "subscription"
  }

  /** Type-system keywords the parser recognises but does not implement. */
  predicate IsTypeSystemKeyword(s: string) {
    || s == "directive" || s == "enum" || s == "input" || s == "interface"
    || s == "scalar" || s == "schema" || s == "type" || s == "union"
  }
}
