/** Properties of type references: `[T]` needs its `]`, and a `!` wraps the
    reference parsed just before it.  A printer for references gives the
    partner: parsing a printed reference gives it back, and a parsed
    reference prints as the tokens it was read from. */
module TypeProperties {
  import opened Tokens
  import opened Ast
  import opened Results
  import opened Cursor
  import G = Grammar

  /** The references the grammar can produce: `!` never applies twice in a row. */
  predicate WellFormed(t: TypeReference) {
    match t
    case NamedType(_) => true
    case ListType(e) => WellFormed(e)
    case NonNullType(b) => !b.NonNullType? && WellFormed(b)
  }

  /** The tokens that spell a reference. */
  function TypeTokens(t: TypeReference): (ts: seq<Token>)
    ensures |ts| >= 1
  {
    match t
    case NamedType(n) => [Token(NAME, n)]
    case ListType(e) => [Token(BRACKET_L, "[")] + TypeTokens(e) + [Token(BRACKET_R, "]")]
    case NonNullType(b) => TypeTokens(b) + [Token(BANG, "!")]
  }

  /** `a` reads as `b`: same kind, and the same text where the text matters. */
  predicate SameToken(a: Token, b: Token) {
    a.kind == b.kind && (b.kind == NAME ==> a.value == b.value)
  }

  /** The tokens from `pos` on start with tokens that read as `ts`. */
  predicate ReadsAt(toks: seq<Token>, pos: nat, ts: seq<Token>) {
    pos + |ts| <= |toks| && forall i :: 0 <= i < |ts| ==> SameToken(toks[pos + i], ts[i])
  }

  lemma ReadsAtSplit(toks: seq<Token>, pos: nat, a: seq<Token>, b: seq<Token>)
    ensures ReadsAt(toks, pos, a + b) <==> ReadsAt(toks, pos, a) && ReadsAt(toks, pos + |a|, b)
  {
    if ReadsAt(toks, pos, a) && ReadsAt(toks, pos + |a|, b) {
      forall i | 0 <= i < |a + b| ensures SameToken(toks[pos + i], (a + b)[i]) {
        if i >= |a| {
          assert toks[pos + i] == toks[pos + |a| + (i - |a|)];
        }
      }
    }
    if ReadsAt(toks, pos, a + b) {
      forall i | 0 <= i < |a| ensures SameToken(toks[pos + i], a[i]) {
        assert (a + b)[i] == a[i];
      }
      forall i | 0 <= i < |b| ensures SameToken(toks[pos + |a| + i], b[i]) {
        assert (a + b)[|a| + i] == b[i];
      }
    }
  }

  lemma ReadsAtOne(toks: seq<Token>, pos: nat, t: Token)
    ensures ReadsAt(toks, pos, [t]) <==> pos < |toks| && SameToken(toks[pos], t)
  {
    if pos < |toks| && SameToken(toks[pos], t) {
      assert toks[pos + 0] == toks[pos];
    }
    if ReadsAt(toks, pos, [t]) {
      assert SameToken(toks[pos + 0], [t][0]);
    }
  }

  // ---------------------------------------------------------------------
  // What the printed tokens of each kind of reference look like

  lemma NamedTokens(toks: seq<Token>, pos: nat, n: string)
    ensures ReadsAt(toks, pos, TypeTokens(NamedType(n))) <==> Peek(toks, NAME, pos) && Current(toks, pos).value == n
  {
    ReadsAtOne(toks, pos, Token(NAME, n));
  }

  lemma ReadsAtWrapped(toks: seq<Token>, pos: nat, x: Token, ts: seq<Token>, y: Token)
    ensures ReadsAt(toks, pos, [x] + ts + [y]) <==>
      pos < |toks| && SameToken(toks[pos], x) && ReadsAt(toks, pos + 1, ts)
      && pos + 1 + |ts| < |toks| && SameToken(toks[pos + 1 + |ts|], y)
  {
    ReadsAtSplit(toks, pos, [x] + ts, [y]);
    ReadsAtSplit(toks, pos, [x], ts);
    ReadsAtOne(toks, pos, x);
    ReadsAtOne(toks, pos + 1 + |ts|, y);
  }

  lemma ListTokens(toks: seq<Token>, pos: nat, e: TypeReference)
    ensures ReadsAt(toks, pos, TypeTokens(ListType(e))) <==>
      Peek(toks, BRACKET_L, pos) && ReadsAt(toks, pos + 1, TypeTokens(e))
      && Peek(toks, BRACKET_R, pos + 1 + |TypeTokens(e)|)
  {
    ReadsAtWrapped(toks, pos, Token(BRACKET_L, "["), TypeTokens(e), Token(BRACKET_R, "]"));
  }

  lemma NonNullTokens(toks: seq<Token>, pos: nat, b: TypeReference)
    ensures ReadsAt(toks, pos, TypeTokens(NonNullType(b))) <==>
      ReadsAt(toks, pos, TypeTokens(b)) && Peek(toks, BANG, pos + |TypeTokens(b)|)
  {
    var ts := TypeTokens(b);
    ReadsAtSplit(toks, pos, ts, [Token(BANG, "!")]);
    ReadsAtOne(toks, pos + |ts|, Token(BANG, "!"));
  }

  /** The tokens of `T!` are those of `T`, then `!`. */
  lemma NonNullSplit(toks: seq<Token>, pos: nat, b: TypeReference)
    requires ReadsAt(toks, pos, TypeTokens(NonNullType(b)))
    ensures ReadsAt(toks, pos, TypeTokens(b)) && Peek(toks, BANG, pos + |TypeTokens(b)|)
    ensures |TypeTokens(NonNullType(b))| == |TypeTokens(b)| + 1
  {
    NonNullTokens(toks, pos, b);
  }

  // ---------------------------------------------------------------------
  // One step of the parse

  /** A NAME is a named type. */
  lemma NamedStep(toks: seq<Token>, pos: nat)
    requires pos <= |toks| && Peek(toks, NAME, pos)
    ensures G.ParseBaseType(toks, pos) == Ok(Parsed(NamedType(Current(toks, pos).value), pos + 1))
  {
  }

  /** `[`, an element type parsed up to `]`, and the `]`. */
  lemma ListStep(toks: seq<Token>, pos: nat, inner: TypeReference, q: nat)
    requires pos <= |toks| && Peek(toks, BRACKET_L, pos)
    requires G.ParseTypeReference(toks, pos + 1) == Ok(Parsed(inner, q)) && Peek(toks, BRACKET_R, q)
    ensures G.ParseBaseType(toks, pos) == Ok(Parsed(ListType(inner), q + 1))
  {
  }

  /** A `!` after the base wraps it; anything else leaves it alone. */
  lemma BangStep(toks: seq<Token>, pos: nat, b: TypeReference, q: nat)
    requires pos <= |toks| && G.ParseBaseType(toks, pos) == Ok(Parsed(b, q))
    ensures G.ParseTypeReference(toks, pos) ==
      if Peek(toks, BANG, q) then Ok(Parsed(NonNullType(b), q + 1)) else Ok(Parsed(b, q))
  {
  }

  // ---------------------------------------------------------------------
  // The round trips

  /** Printing then parsing is the identity on well-formed references, when
      no further `!` follows. */
  lemma {:induction false} TypeRoundTrip(toks: seq<Token>, pos: nat, t: TypeReference)
    requires WellFormed(t) && ReadsAt(toks, pos, TypeTokens(t))
    requires !Peek(toks, BANG, pos + |TypeTokens(t)|)
    ensures G.ParseTypeReference(toks, pos) == Ok(Parsed(t, pos + |TypeTokens(t)|))
    decreases t, 1
  {
    if t.NonNullType? {
      var b := t.nullableType;
      NonNullSplit(toks, pos, b);
      BaseRoundTrip(toks, pos, b);
      BangStep(toks, pos, b, pos + |TypeTokens(b)|);
    } else {
      BaseRoundTrip(toks, pos, t);
      BangStep(toks, pos, t, pos + |TypeTokens(t)|);
    }
  }

  /** The same for the part before the `!`. */
  lemma {:induction false} BaseRoundTrip(toks: seq<Token>, pos: nat, b: TypeReference)
    requires WellFormed(b) && !b.NonNullType? && ReadsAt(toks, pos, TypeTokens(b))
    ensures G.ParseBaseType(toks, pos) == Ok(Parsed(b, pos + |TypeTokens(b)|))
    decreases b, 0
  {
    match b
    case NamedType(n) =>
      NamedTokens(toks, pos, n);
      NamedStep(toks, pos);
    case ListType(e) =>
      ListTokens(toks, pos, e);
      TypeRoundTrip(toks, pos + 1, e);
      ListStep(toks, pos, e, pos + 1 + |TypeTokens(e)|);
  }

  /** Parsing then printing: a parsed reference is well formed, and it was
      read from exactly the tokens that print it. */
  lemma {:induction false} ParsedTypePrints(toks: seq<Token>, pos: nat)
    requires pos <= |toks| && G.ParseTypeReference(toks, pos).Ok?
    ensures var p := G.ParseTypeReference(toks, pos).value;
      WellFormed(p.node) && p.next == pos + |TypeTokens(p.node)| && ReadsAt(toks, pos, TypeTokens(p.node))
    decreases |toks| - pos, 1
  {
    var base := G.ParseBaseType(toks, pos).value;
    BasePrints(toks, pos);
    BangStep(toks, pos, base.node, base.next);
    if Peek(toks, BANG, base.next) {
      NonNullTokens(toks, pos, base.node);
    }
  }

  /** The same for the part before the `!`. */
  lemma {:induction false} BasePrints(toks: seq<Token>, pos: nat)
    requires pos <= |toks| && G.ParseBaseType(toks, pos).Ok?
    ensures var p := G.ParseBaseType(toks, pos).value;
      WellFormed(p.node) && p.next == pos + |TypeTokens(p.node)| && ReadsAt(toks, pos, TypeTokens(p.node))
    decreases |toks| - pos, 0
  {
    if Peek(toks, BRACKET_L, pos) {
      var inner := G.ParseTypeReference(toks, pos + 1).value;
      ParsedTypePrints(toks, pos + 1);
      ListStep(toks, pos, inner.node, inner.next);
      ListTokens(toks, pos, inner.node);
    } else {
      NamedStep(toks, pos);
      NamedTokens(toks, pos, Current(toks, pos).value);
    }
  }

  /** `[Int!]!` is a non-null list of non-null `Int`. */
  lemma NonNullListOfNonNull(toks: seq<Token>)
    requires |toks| == 5 && toks[0].kind == BRACKET_L && toks[1] == Token(NAME, "Int")
    requires toks[2].kind == BANG && toks[3].kind == BRACKET_R && toks[4].kind == BANG
    ensures G.ParseTypeReference(toks, 0) ==
      Ok(Parsed(NonNullType(ListType(NonNullType(NamedType("Int")))), 5))
  {
    var t := NonNullType(ListType(NonNullType(NamedType("Int"))));
    NamedTokens(toks, 1, "Int");
    NonNullTokens(toks, 1, NamedType("Int"));
    ListTokens(toks, 0, NonNullType(NamedType("Int")));
    NonNullTokens(toks, 0, ListType(NonNullType(NamedType("Int"))));
    TypeRoundTrip(toks, 0, t);
  }

  /** A list type needs its closing `]`: `[Int` followed by anything else fails there. */
  lemma UnclosedList(toks: seq<Token>, pos: nat)
    requires pos + 1 < |toks| && Peek(toks, BRACKET_L, pos) && Peek(toks, NAME, pos + 1)
    requires !Peek(toks, BANG, pos + 2) && !Peek(toks, BRACKET_R, pos + 2)
    ensures G.ParseTypeReference(toks, pos) == Err(ExpectedKind(BRACKET_R, Current(toks, pos + 2)))
  {
    assert G.ParseTypeReference(toks, pos + 1) == Ok(Parsed(NamedType(toks[pos + 1].value), pos + 2));
  }
}
