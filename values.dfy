/** Properties of value literals: what each token kind turns into, what the
    const flag changes, and how object literals keep their fields. */
module ValueProperties {
  import opened Tokens
  import opened Ast
  import opened Results
  import opened Cursor
  import G = Grammar
  import Numbers

  // ---------------------------------------------------------------------
  // Dispatch on the current token

  /** `$` is refused where a constant is required, and starts a variable
      reference anywhere else. */
  lemma DollarDispatch(toks: seq<Token>, pos: nat)
    requires pos <= |toks| && Peek(toks, DOLLAR, pos)
    ensures G.ParseValue(toks, true, pos) == Err(Unexpected(Current(toks, pos)))
    ensures G.ParseValue(toks, false, pos).Ok? <==> Peek(toks, NAME, pos + 1)
    ensures G.ParseValue(toks, false, pos).Ok? ==>
      G.ParseValue(toks, false, pos).value == Parsed(Variable(Current(toks, pos + 1).value), pos + 2)
  {
  }

  /** A NAME is `true`, `false`, `null` or else an enum symbol, whatever the flag. */
  lemma NameDispatch(toks: seq<Token>, isConst: bool, pos: nat)
    requires pos <= |toks| && Peek(toks, NAME, pos)
    ensures var r := G.ParseValue(toks, isConst, pos);
      var text := Current(toks, pos).value;
      r.Ok? && r.value.next == pos + 1 &&
      (text == "true" ==> r.value.node == Boolean(true)) &&
      (text == "false" ==> r.value.node == Boolean(false)) &&
      (text == "null" ==> r.value.node == Null) &&
      (text != "true" && text != "false" && text != "null" ==> r.value.node == Enum(text))
  {
  }

  /** An INT token converts through the 32-bit conversion, and fails with it. */
  lemma IntDispatch(toks: seq<Token>, isConst: bool, pos: nat)
    requires pos <= |toks| && Peek(toks, INT, pos)
    ensures var r := G.ParseValue(toks, isConst, pos);
      var n := Numbers.IntOfString(Current(toks, pos).value);
      (n.Some? ==> r == Ok(Parsed(Int(n.value), pos + 1))) &&
      (n.None? ==> r == Err(IntConversion(Current(toks, pos).value)))
  {
  }

  /** The lexeme of every 32-bit integer reads back as that integer. */
  lemma IntLiteralRoundTrip(n: int, isConst: bool)
    requires Numbers.MinInt <= n <= Numbers.MaxInt
    ensures G.ParseValue([Token(INT, Numbers.IntText(n))], isConst, 0) == Ok(Parsed(Int(n), 1))
  {
    Numbers.IntRoundTrip(n);
    IntDispatch([Token(INT, Numbers.IntText(n))], isConst, 0);
  }

  /** FLOAT and STRING tokens keep their text. */
  lemma TextDispatch(toks: seq<Token>, isConst: bool, pos: nat)
    requires pos <= |toks| && (Peek(toks, FLOAT, pos) || Peek(toks, STRING, pos))
    ensures var t := Current(toks, pos);
      G.ParseValue(toks, isConst, pos) ==
        Ok(Parsed(if t.kind == FLOAT then Float(t.value) else String(t.value), pos + 1))
  {
  }

  /** The kinds that can start a value literal. */
  predicate StartsValue(k: TokenKind) {
    k in {DOLLAR, BRACKET_L, BRACE_L, NAME, INT, FLOAT, STRING}
  }

  /** Punctuation, SOF and EOF (also past the end) cannot start a value. */
  lemma OtherKindsUnexpected(toks: seq<Token>, isConst: bool, pos: nat)
    requires pos <= |toks| && !StartsValue(Current(toks, pos).kind)
    ensures G.ParseValue(toks, isConst, pos) == Err(Unexpected(Current(toks, pos)))
  {
  }

  // ---------------------------------------------------------------------
  // The const flag

  /** No value anywhere in the elements is a Variable. */
  predicate NoVariableElements(xs: seq<G.Element>) {
    forall i :: 0 <= i < |xs| ==> xs[i].ValueElement? && NoVariables(xs[i].value)
  }

  /** No field value is a Variable. */
  predicate NoVariableFields(fs: seq<(string, Value)>) {
    forall i :: 0 <= i < |fs| ==> NoVariables(fs[i].1)
  }

  /** A constant value holds no variable, and reading it without the const
      flag gives the same value and stops at the same token. */
  lemma {:induction false} ConstValue(toks: seq<Token>, pos: nat)
    requires pos <= |toks| && G.ParseValue(toks, true, pos).Ok?
    ensures NoVariables(G.ParseValue(toks, true, pos).value.node)
    ensures G.ParseValue(toks, false, pos) == G.ParseValue(toks, true, pos)
    decreases |toks| - pos, 1
  {
    var t := Current(toks, pos);
    if t.kind == BRACKET_L {
      var items := G.Tail(toks, G.ValueLiteral(true), BRACKET_R, pos + 1);
      assert G.Any(toks, BRACKET_L, G.ValueLiteral(true), BRACKET_R, pos) == items;
      ConstList(toks, pos + 1);
      assert G.Any(toks, BRACKET_L, G.ValueLiteral(false), BRACKET_R, pos) == items;
      var vs := G.ValuesOf(items.value.node);
      assert G.ParseList(toks, true, pos) == Ok(Parsed(List(vs), items.value.next));
      assert G.ParseList(toks, false, pos) == Ok(Parsed(List(vs), items.value.next));
      assert forall i :: 0 <= i < |vs| ==> NoVariables(vs[i]);
    } else if t.kind == BRACE_L {
      var fields := G.ObjectFields(toks, true, pos + 1);
      ConstFields(toks, pos + 1);
      MapOfFieldsKeeps(fields.value.node);
    }
  }

  /** ConstValue for the items of a list, up to the closing `]`. */
  lemma {:induction false} ConstList(toks: seq<Token>, pos: nat)
    requires pos <= |toks| && G.Tail(toks, G.ValueLiteral(true), BRACKET_R, pos).Ok?
    ensures NoVariableElements(G.Tail(toks, G.ValueLiteral(true), BRACKET_R, pos).value.node)
    ensures G.Tail(toks, G.ValueLiteral(false), BRACKET_R, pos) == G.Tail(toks, G.ValueLiteral(true), BRACKET_R, pos)
    decreases |toks| - pos, 2
  {
    if !Peek(toks, BRACKET_R, pos) {
      var v := G.ParseValue(toks, true, pos).value;
      ConstValue(toks, pos);
      ConstList(toks, v.next);
      var rest := G.Tail(toks, G.ValueLiteral(true), BRACKET_R, v.next).value.node;
      assert G.Tail(toks, G.ValueLiteral(true), BRACKET_R, pos).value.node == [G.ValueElement(v.node)] + rest;
    }
  }

  /** ConstValue for the fields of an object, up to the closing `}`. */
  lemma {:induction false} ConstFields(toks: seq<Token>, pos: nat)
    requires pos <= |toks| && G.ObjectFields(toks, true, pos).Ok?
    ensures NoVariableFields(G.ObjectFields(toks, true, pos).value.node)
    ensures G.ObjectFields(toks, false, pos) == G.ObjectFields(toks, true, pos)
    decreases |toks| - pos, 2
  {
    if !Peek(toks, BRACE_R, pos) {
      var f := G.ParseObjectField(toks, true, pos).value;
      ConstValue(toks, pos + 2);
      ConstFields(toks, f.next);
      var rest := G.ObjectFields(toks, true, f.next).value.node;
      assert G.ObjectFields(toks, true, pos).value.node == [f.node] + rest;
    }
  }

  // ---------------------------------------------------------------------
  // Object literals

  /** The keys of the map are exactly the keys written. */
  lemma {:induction false} MapOfFieldsKeys(fields: seq<(string, Value)>)
    ensures forall k :: k in G.MapOfFields(fields) <==> exists i :: 0 <= i < |fields| && fields[i].0 == k
  {
    if fields != [] {
      var init := fields[..|fields| - 1];
      MapOfFieldsKeys(init);
      assert forall i :: 0 <= i < |init| ==> init[i] == fields[i];
    }
  }

  /** A key maps to the value of its last occurrence: a later field with the
      same key replaces an earlier one. */
  lemma {:induction false} MapOfFieldsLastWins(fields: seq<(string, Value)>, i: nat)
    requires i < |fields|
    requires forall j :: i < j < |fields| ==> fields[j].0 != fields[i].0
    ensures fields[i].0 in G.MapOfFields(fields)
    ensures G.MapOfFields(fields)[fields[i].0] == fields[i].1
    decreases |fields|
  {
    var init := fields[..|fields| - 1];
    if i < |fields| - 1 {
      assert forall j :: i < j < |init| ==> init[j] == fields[j];
      MapOfFieldsLastWins(init, i);
    }
  }

  /** Every value in the map was written as some field's value. */
  lemma {:induction false} MapOfFieldsValues(fields: seq<(string, Value)>)
    ensures forall k :: k in G.MapOfFields(fields) ==>
      exists i :: 0 <= i < |fields| && fields[i] == (k, G.MapOfFields(fields)[k])
  {
    if fields != [] {
      var init := fields[..|fields| - 1];
      MapOfFieldsValues(init);
      assert forall i :: 0 <= i < |init| ==> init[i] == fields[i];
    }
  }

  /** Hence a map built from constant fields holds only constants. */
  lemma MapOfFieldsKeeps(fields: seq<(string, Value)>)
    requires NoVariableFields(fields)
    ensures NoVariables(Object(G.MapOfFields(fields)))
  {
    MapOfFieldsValues(fields);
  }

  /** `{}` is the empty object. */
  lemma EmptyObject(toks: seq<Token>, isConst: bool, pos: nat)
    requires pos + 1 < |toks| && Peek(toks, BRACE_L, pos) && Peek(toks, BRACE_R, pos + 1)
    ensures G.ParseValue(toks, isConst, pos) == Ok(Parsed(Object(map[]), pos + 2))
  {
    assert G.ObjectFields(toks, isConst, pos + 1) == Ok(Parsed([], pos + 2));
    assert G.MapOfFields([]) == map[];
  }

  /** One `name: value` field, then the rest of the object. */
  lemma FieldThen(toks: seq<Token>, isConst: bool, pos: nat)
    requires pos + 2 <= |toks| && Peek(toks, NAME, pos) && Peek(toks, COLON, pos + 1)
    requires G.ParseValue(toks, isConst, pos + 2).Ok?
    ensures var v := G.ParseValue(toks, isConst, pos + 2).value;
      var rest := G.ObjectFields(toks, isConst, v.next);
      G.ObjectFields(toks, isConst, pos) ==
        if rest.Ok? then Ok(Parsed([(toks[pos].value, v.node)] + rest.value.node, rest.value.next)) else rest
  {
  }

  /** An object literal is the map of the fields written between the braces. */
  lemma ObjectDispatch(toks: seq<Token>, isConst: bool, pos: nat)
    requires pos <= |toks| && Peek(toks, BRACE_L, pos)
    ensures var fields := G.ObjectFields(toks, isConst, pos + 1);
      G.ParseValue(toks, isConst, pos) ==
        if fields.Ok? then Ok(Parsed(Object(G.MapOfFields(fields.value.node)), fields.value.next))
        else Err(fields.error)
  {
  }

  /** So the object's keys are exactly the keys written, and each maps to the
      value of its last occurrence. */
  lemma ObjectLastWins(toks: seq<Token>, isConst: bool, pos: nat)
    requires pos <= |toks| && Peek(toks, BRACE_L, pos) && G.ParseValue(toks, isConst, pos).Ok?
    ensures G.ObjectFields(toks, isConst, pos + 1).Ok?
    ensures var fs := G.ObjectFields(toks, isConst, pos + 1).value.node;
      var obj := G.ParseValue(toks, isConst, pos).value.node;
      obj.Object? &&
      (forall k :: k in obj.fields <==> exists i :: 0 <= i < |fs| && fs[i].0 == k) &&
      (forall i :: 0 <= i < |fs| && (forall j :: i < j < |fs| ==> fs[j].0 != fs[i].0) ==>
         fs[i].0 in obj.fields && obj.fields[fs[i].0] == fs[i].1)
  {
    ObjectDispatch(toks, isConst, pos);
    var fs := G.ObjectFields(toks, isConst, pos + 1).value.node;
    MapOfFieldsKeys(fs);
    forall i | 0 <= i < |fs| && (forall j :: i < j < |fs| ==> fs[j].0 != fs[i].0)
      ensures fs[i].0 in G.MapOfFields(fs) && G.MapOfFields(fs)[fs[i].0] == fs[i].1
    {
      MapOfFieldsLastWins(fs, i);
    }
  }

  /** `{ a: $x a: b }`, with `$`, `:` and the braces written with any text. */
  predicate OverwrittenVariable(toks: seq<Token>) {
    |toks| == 9 && toks[0].kind == BRACE_L && toks[1] == Token(NAME, "a") && toks[2].kind == COLON
    && toks[3].kind == DOLLAR && toks[4] == Token(NAME, "x")
    && toks[5] == Token(NAME, "a") && toks[6].kind == COLON && toks[7] == Token(NAME, "b")
    && toks[8].kind == BRACE_R
  }

  /** The fields of `{ a: $x a: b }` in the order written. */
  lemma OverwrittenVariableFields(toks: seq<Token>)
    requires OverwrittenVariable(toks)
    ensures G.ObjectFields(toks, false, 1) == Ok(Parsed([("a", Variable("x")), ("a", Enum("b"))], 9))
  {
    DollarDispatch(toks, 3);
    NameDispatch(toks, false, 7);
    FieldThen(toks, false, 5);
    FieldThen(toks, false, 1);
    assert [("a", Variable("x"))] + ([("a", Enum("b"))] + []) == [("a", Variable("x")), ("a", Enum("b"))];
  }

  /** Read without the const flag, the second `a` replaces the variable. */
  lemma OverwrittenVariableObject(toks: seq<Token>)
    requires OverwrittenVariable(toks)
    ensures G.ParseValue(toks, false, 0) == Ok(Parsed(Object(map["a" := Enum("b")]), 9))
  {
    OverwrittenVariableFields(toks);
    ObjectDispatch(toks, false, 0);
    assert G.MapOfFields([("a", Variable("x")), ("a", Enum("b"))]) == map["a" := Enum("b")];
  }

  /** The const check is made on the text, not on the result: `{ a: $x a: b }`
      is refused as a constant although the object it builds holds no
      variable.  So the converse of ConstValue does not hold. */
  lemma ConstCheckedBeforeOverwrite(toks: seq<Token>)
    requires OverwrittenVariable(toks)
    ensures G.ParseValue(toks, false, 0).Ok? && NoVariables(G.ParseValue(toks, false, 0).value.node)
    ensures G.ParseValue(toks, true, 0) == Err(Unexpected(toks[3]))
  {
    OverwrittenVariableObject(toks);
    assert NoVariables(Object(map["a" := Enum("b")]));
    DollarDispatch(toks, 3);
    assert G.ObjectFields(toks, true, 1) == Err(Unexpected(toks[3]));
  }
}
