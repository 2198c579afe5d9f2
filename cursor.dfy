/** The parser's primitives as functions of the token sequence and the
    cursor position.  Positions at or past the end read as EOF, so moving
    the cursor forward is clamped there, as the lexer keeps answering EOF. */
module Cursor {
  import opened Tokens
  import opened Results

  /** The token under the cursor. */
  function Current(toks: seq<Token>, pos: nat): (t: Token)
    ensures pos < |toks| ==> t == toks[pos]
    ensures pos >= |toks| ==> t == EndToken
  {
    if pos < |toks| then toks[pos] else EndToken
  }

  /** Move the cursor one token forward, clamped at the end. */
  function Advance(toks: seq<Token>, pos: nat): (q: nat)
    requires pos <= |toks|
    ensures q <= |toks|
    ensures pos < |toks| ==> q == pos + 1
    ensures q == pos <==> pos == |toks|
  {
    if pos < |toks| then pos + 1 else pos
  }

  /** `peek`: the current token has kind `k`; nothing is consumed. */
  predicate Peek(toks: seq<Token>, k: TokenKind, pos: nat)
    ensures pos < |toks| ==> (Peek(toks, k, pos) <==> toks[pos].kind == k)
    ensures pos >= |toks| ==> (Peek(toks, k, pos) <==> k == EOF)
  {
    Current(toks, pos).kind == k
  }

  /** `expect`: the current token if it has kind `k`, and the cursor after it. */
  function Expect(toks: seq<Token>, k: TokenKind, pos: nat): (r: Result<Parsed<Token>>)
    requires pos <= |toks|
    ensures r.Ok? <==> Peek(toks, k, pos)
    ensures r.Ok? ==> r.value.node == Current(toks, pos) && r.value.node.kind == k
    ensures r.Ok? ==> r.value.next <= |toks| && (k != EOF ==> r.value.next == pos + 1)
    ensures r.Err? ==> r.error == ExpectedKind(k, Current(toks, pos))
  {
    var t := Current(toks, pos);
    if t.kind == k then Ok(Parsed(t, Advance(toks, pos))) else Err(ExpectedKind(k, t))
  }

  /** `skip`: consume the current token when it has kind `k`, and say whether it did. */
  function Skip(toks: seq<Token>, k: TokenKind, pos: nat): (r: Parsed<bool>)
    requires pos <= |toks|
    ensures r.node <==> Peek(toks, k, pos)
    ensures r.next <= |toks|
    ensures !r.node ==> r.next == pos
    ensures r.node && k != EOF ==> r.next == pos + 1
  {
    if Peek(toks, k, pos) then Parsed(true, Advance(toks, pos)) else Parsed(false, pos)
  }

  /** The current token is the NAME `word`. */
  predicate AtKeyword(toks: seq<Token>, word: string, pos: nat) {
    Current(toks, pos).kind == NAME && Current(toks, pos).value == word
  }

  /** `skipKeyword`: consume the current token when it is the NAME `word`. */
  function SkipKeyword(toks: seq<Token>, word: string, pos: nat): (r: Parsed<bool>)
    requires pos <= |toks|
    ensures r.node <==> AtKeyword(toks, word, pos)
    ensures r.next == if r.node then pos + 1 else pos
  {
    if AtKeyword(toks, word, pos) then Parsed(true, Advance(toks, pos)) else Parsed(false, pos)
  }

  /** `expectKeyword`: consume the NAME `word`, or fail naming the keyword. */
  function ExpectKeyword(toks: seq<Token>, word: string, pos: nat): (r: Result<Parsed<()>>)
    requires pos <= |toks|
    ensures r.Ok? <==> AtKeyword(toks, word, pos)
    ensures r.Ok? ==> r.value.next == pos + 1
    ensures r.Err? ==> r.error == ExpectedKeyword(word, Current(toks, pos))
  {
    var s := SkipKeyword(toks, word, pos);
    if s.node then Ok(Parsed((), s.next)) else Err(ExpectedKeyword(word, Current(toks, pos)))
  }
}
