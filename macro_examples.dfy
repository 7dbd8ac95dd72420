/** Worked examples: a definition loaded and expanded step by step. */
module MacroExamples {
  import opened Lex
  import opened MacroTypes
  import opened MacroLoad
  import opened MacroExpand

  /** `expand("1, 2)")`: two arguments; the second records the space at its
      left. */
  lemma SplitTwo()
    ensures SplitArgs("1, 2)", 0, true) == Success(([Arg("1", false, false), Arg("2", true, false)], 4))
  {
    var s := "1, 2)";
    assert SkipWhitespace(s, 0) == 0;
    assert SkipTo(s, 0, CloseParen) == 4;
    assert SkipTo(s, 0, FieldEnd) == 1;
    assert SkipWhitespace(s, 2) == 3;
    assert SkipTo(s, 3, FieldEnd) == 4;
    FieldsFromUnfold(s, 0, 4, true, 0, 0, 1);
    FieldsFromUnfold(s, 1, 4, true, 2, 3, 4);
    assert s[0..1] == "1" && s[3..4] == "2";
    assert FieldsFrom(s, 4, 4, true) == [];
    assert SkipWhitespace(s, 4) == 4;
    assert At(s, 0) == '1' && At(s, 2) == ' ' && At(s, 3) == '2';
    assert FieldsFrom(s, 0, 4, true) == [Arg("1", false, false), Arg("2", true, false)];
  }

  const AddText: string := "ADD(a, b) a + b"
  const AddNames: seq<Arg> := [Arg("a", false, false), Arg("b", false, false)]
  const AddParts: seq<Part> := [ArgRef(0, false, false, false), Literal("+ "), ArgRef(1, false, false, false)]

  /** `ADD(a, b) a + b` loads as two references around the literal `+ `
      (the whitespace after a reference is skipped, the whitespace before one
      is kept). */
  lemma LoadAdd()
    ensures LoadSpec(AddText, false) == (Def("ADD", 2, false, AddParts), Pass)
  {
    var t := AddText;
    AddHeader();
    AddParams();
    assert LoadFunctionLike(t, "ADD", 4, false) == LoadSplitNames(t, "ADD", AddNames, 8, false);
    AddStrip();
    LoadSplitNamesPass(t, "ADD", AddNames, 8, false, AddNames, false);
    AddBody();
  }

  lemma AddHeader()
    ensures LoadSpec(AddText, false) == LoadFunctionLike(AddText, "ADD", 4, false)
  {
    var t := AddText;
    assert NameStart(t) == 0;
    assert SkipTo(t, 0, NameEnd) == 3;
    assert AfterName(t) == 3;
    assert t[0..3] == "ADD";
  }

  lemma AddStrip()
    ensures StripVarArgs(AddNames) == Success((AddNames, false))
  {
    assert AddNames[0].text != Ellipsis && AddNames[1].text != Ellipsis;
  }

  lemma AddParams()
    ensures SplitArgs(AddText, 4, false) == Success((AddNames, 8))
  {
    var t := AddText;
    assert SkipWhitespace(t, 4) == 4;
    assert SkipTo(t, 4, CloseParen) == 8;
    assert SkipTo(t, 4, FieldEnd) == 5;
    assert SkipWhitespace(t, 6) == 7;
    assert SkipTo(t, 7, FieldEnd) == 8;
    FieldsFromUnfold(t, 4, 8, false, 4, 4, 5);
    FieldsFromUnfold(t, 5, 8, false, 6, 7, 8);
    assert t[4..5] == "a" && t[7..8] == "b";
    assert FieldsFrom(t, 8, 8, false) == [];
    assert FieldsFrom(t, 4, 8, false) == AddNames;
    assert SkipWhitespace(t, 8) == 8;
  }

  lemma AddBody()
    ensures BodyParts(AddText, 9, AddNames, false) == AddParts
  {
    var t := AddText;
    assert SkipWhitespace(t, 9) == 10;
    AddFirstRef();
    AddSecondRef();
    assert PartsFrom(t, 15, 15, AddNames, false) == [];
    assert Emit("", ArgRef(0, false, false, false)) == [ArgRef(0, false, false, false)];
    assert Emit("+ ", ArgRef(1, false, false, false)) == [Literal("+ "), ArgRef(1, false, false, false)];
  }

  /** The body's first word `a` is the reference to parameter 0. */
  lemma AddFirstRef()
    ensures PartsFrom(AddText, 10, 10, AddNames, false)
         == Emit("", ArgRef(0, false, false, false)) + PartsFrom(AddText, 12, 12, AddNames, false)
  {
    var t := AddText;
    var ref0 := ArgRef(0, false, false, false);
    assert SkipTo(t, 10, Word) == 10 && SkipFrom(t, 10, Word) == 11;
    assert LastMatch(AddNames, "a", 2) == 0 by {
      assert AddNames[1].text != "a" && AddNames[0].text == "a";
    }
    assert t[10..11] == "a" && WordRef("a", AddNames, false) == Some(ref0);
    assert SkipWhitespace(t, 11) == 12;
    PartsFromRefWord(t, 10, 10, AddNames, false, 10, 11, ref0, "", ref0, 12);
  }

  /** After `a `, the text `+ ` is pending when `b`, the reference to
      parameter 1, is reached. */
  lemma AddSecondRef()
    ensures PartsFrom(AddText, 12, 12, AddNames, false)
         == Emit("+ ", ArgRef(1, false, false, false)) + PartsFrom(AddText, 15, 15, AddNames, false)
  {
    var t := AddText;
    var ref1 := ArgRef(1, false, false, false);
    assert SkipTo(t, 12, Word) == 14 && SkipFrom(t, 14, Word) == 15;
    assert LastMatch(AddNames, "b", 2) == 1 by {
      assert AddNames[1].text == "b";
    }
    assert t[14..15] == "b" && WordRef("b", AddNames, false) == Some(ref1);
    assert t[12..14] == "+ ";
    assert SkipWhitespace(t, 15) == 15;
    PartsFromRefWord(t, 12, 12, AddNames, false, 14, 15, ref1, "+ ", ref1, 15);
  }

  /** ... and expands with `1` and `2` to `1 +  2`: the literal keeps its
      trailing space and a separator space follows it. */
  lemma ExpandAdd()
    ensures Expansion(AddParts, 2, [Arg("1", false, false), Arg("2", false, false)]) == "1 +  2"
  {
    var parts := AddParts;
    assert parts[1..] == [Literal("+ "), ArgRef(1, false, false, false)];
    assert parts[1..][1..] == [ArgRef(1, false, false, false)];
  }

  // Parameter names keep the whitespace that follows them.

  const LateEllipsisText: string := "F(... , a) a"
  const LateEllipsisNames: seq<Arg> := [Arg("... ", false, false), Arg("a", false, false)]

  /** In `F(... , a) a` the first parameter is `... ` with its space, which is
      not `...`: the load passes, the macro is not variadic and has two
      parameters, and the body is the reference to `a`. */
  lemma LateEllipsisLoads()
    ensures LoadSpec(LateEllipsisText, false) == (Def("F", 2, false, [ArgRef(1, false, false, false)]), Pass)
  {
    LateEllipsisHeader();
    LateEllipsisParams();
    LateEllipsisStrip();
    LateEllipsisBody();
    LoadPieces(LateEllipsisText, "F", 2, LateEllipsisNames, 9, LateEllipsisNames, false, [ArgRef(1, false, false, false)]);
  }

  lemma LateEllipsisHeader()
    ensures LoadSpec(LateEllipsisText, false) == LoadFunctionLike(LateEllipsisText, "F", 2, false)
  {
    var t := LateEllipsisText;
    assert t[0] == 'F';
    assert t[1] == '(';
    assert |t[0..1]| == 1;
    assert SkipTo(t, 0, NameEnd) == 1;
    FunctionLikeHeader(t, "F");
  }

  lemma LateEllipsisParams()
    ensures SplitArgs(LateEllipsisText, 2, false) == Success((LateEllipsisNames, 9))
  {
    var t := LateEllipsisText;
    LateEllipsisParamScan();
    FieldsFromUnfold(t, 2, 9, false, 2, 2, 6);
    FieldsFromUnfold(t, 6, 9, false, 7, 8, 9);
    assert FieldsFrom(t, 9, 9, false) == [];
    assert FieldsFrom(t, 2, 9, false) == LateEllipsisNames;
  }

  /** Where the scans over the parameter list of `F` stop. */
  lemma LateEllipsisParamScan()
    ensures SkipWhitespace(LateEllipsisText, 2) == 2 && SkipTo(LateEllipsisText, 2, CloseParen) == 9
    ensures SkipTo(LateEllipsisText, 2, FieldEnd) == 6 && SkipWhitespace(LateEllipsisText, 7) == 8
    ensures SkipTo(LateEllipsisText, 8, FieldEnd) == 9 && SkipWhitespace(LateEllipsisText, 9) == 9
    ensures LateEllipsisText[2..6] == "... " && LateEllipsisText[8..9] == "a"
  {
    var t := LateEllipsisText;
    assert t[2] == '.';
    assert t[3] == '.';
    assert t[4] == '.';
    assert t[5] == ' ';
    assert t[6] == ',';
    assert t[7] == ' ';
    assert t[8] == 'a';
    assert t[9] == ')';
    assert |t[2..6]| == 4;
  }

  /** `... ` is not `...`, so no parameter is dropped. */
  lemma LateEllipsisStrip()
    ensures StripVarArgs(LateEllipsisNames) == Success((LateEllipsisNames, false))
  {
    assert LateEllipsisNames[0].text != Ellipsis && LateEllipsisNames[1].text != Ellipsis;
    assert LateEllipsisNames[1..] == [Arg("a", false, false)];
  }

  lemma LateEllipsisBody()
    ensures BodyParts(LateEllipsisText, 10, LateEllipsisNames, false) == [ArgRef(1, false, false, false)]
  {
    var t := LateEllipsisText;
    var ref1 := ArgRef(1, false, false, false);
    assert t[10] == ' ';
    assert t[11] == 'a';
    assert SkipWhitespace(t, 10) == 11;
    assert SkipTo(t, 11, Word) == 11 && SkipFrom(t, 11, Word) == 12;
    assert t[11..12] == "a" && t[11..11] == "";
    assert WordRef("a", LateEllipsisNames, false) == Some(ref1) by {
      assert LastMatch(LateEllipsisNames, "a", 2) == 1;
    }
    MarkPlain("", ref1);
    PartsFromRefWord(t, 11, 11, LateEllipsisNames, false, 11, 12, ref1, "", ref1, 12);
    assert Emit("", ref1) == [ref1];
  }

  const SpacedAddText: string := "ADD(a , b) a + b"
  const SpacedAddNames: seq<Arg> := [Arg("a ", false, false), Arg("b", false, false)]
  const SpacedAddParts: seq<Part> := [Literal("a + "), ArgRef(1, false, false, false)]

  /** In `ADD(a , b) a + b` the first parameter is `a ` with its space: the
      body's `a` is no reference and stays literal text. With `1` and `2` it
      expands to `a +  2`. */
  lemma SpacedNameStaysLiteral()
    ensures LoadSpec(SpacedAddText, false) == (Def("ADD", 2, false, SpacedAddParts), Pass)
    ensures Expansion(SpacedAddParts, 2, [Arg("1", false, false), Arg("2", false, false)]) == "a +  2"
  {
    LoadSpacedAdd();
    SpacedAddExpand();
  }

  lemma LoadSpacedAdd()
    ensures LoadSpec(SpacedAddText, false) == (Def("ADD", 2, false, SpacedAddParts), Pass)
  {
    SpacedAddHeader();
    SpacedAddParams();
    SpacedAddStrip();
    SpacedAddBody();
    LoadPieces(SpacedAddText, "ADD", 4, SpacedAddNames, 9, SpacedAddNames, false, SpacedAddParts);
  }

  lemma SpacedAddExpand()
    ensures Expansion(SpacedAddParts, 2, [Arg("1", false, false), Arg("2", false, false)]) == "a +  2"
  {
    assert SpacedAddParts[1..] == [ArgRef(1, false, false, false)];
  }

  lemma SpacedAddHeader()
    ensures LoadSpec(SpacedAddText, false) == LoadFunctionLike(SpacedAddText, "ADD", 4, false)
  {
    var t := SpacedAddText;
    assert t[0] == 'A';
    assert t[1] == 'D';
    assert t[2] == 'D';
    assert t[3] == '(';
    assert |t[0..3]| == 3;
    assert SkipTo(t, 2, NameEnd) == 3;
    assert SkipTo(t, 1, NameEnd) == 3;
    assert SkipTo(t, 0, NameEnd) == 3;
    FunctionLikeHeader(t, "ADD");
  }

  lemma SpacedAddParams()
    ensures SplitArgs(SpacedAddText, 4, false) == Success((SpacedAddNames, 9))
  {
    var t := SpacedAddText;
    SpacedAddParamScan();
    FieldsFromUnfold(t, 4, 9, false, 4, 4, 6);
    FieldsFromUnfold(t, 6, 9, false, 7, 8, 9);
    assert FieldsFrom(t, 9, 9, false) == [];
    assert FieldsFrom(t, 4, 9, false) == SpacedAddNames;
  }

  /** Where the scans over the parameter list of `ADD(a , b)` stop. */
  lemma SpacedAddParamScan()
    ensures SkipWhitespace(SpacedAddText, 4) == 4 && SkipTo(SpacedAddText, 4, CloseParen) == 9
    ensures SkipTo(SpacedAddText, 4, FieldEnd) == 6 && SkipWhitespace(SpacedAddText, 7) == 8
    ensures SkipTo(SpacedAddText, 8, FieldEnd) == 9 && SkipWhitespace(SpacedAddText, 9) == 9
    ensures SpacedAddText[4..6] == "a " && SpacedAddText[8..9] == "b"
  {
    var t := SpacedAddText;
    assert t[4] == 'a';
    assert t[5] == ' ';
    assert t[6] == ',';
    assert t[7] == ' ';
    assert t[8] == 'b';
    assert t[9] == ')';
    assert |t[4..6]| == 2;
  }

  /** `a ` is not `a`, so nothing is dropped. */
  lemma SpacedAddStrip()
    ensures StripVarArgs(SpacedAddNames) == Success((SpacedAddNames, false))
  {
    assert SpacedAddNames[0].text != Ellipsis && SpacedAddNames[1].text != Ellipsis;
    assert SpacedAddNames[1..] == [Arg("b", false, false)];
  }

  lemma SpacedAddBody()
    ensures BodyParts(SpacedAddText, 10, SpacedAddNames, false) == SpacedAddParts
  {
    var t := SpacedAddText;
    var ref1 := ArgRef(1, false, false, false);
    SpacedAddBodyScan();
    assert WordRef("a", SpacedAddNames, false) == None by {
      assert LastMatch(SpacedAddNames, "a", 2) == -1;
    }
    PartsFromPlainWord(t, 11, 11, SpacedAddNames, false, 11, 12);
    assert WordRef("b", SpacedAddNames, false) == Some(ref1) by {
      assert LastMatch(SpacedAddNames, "b", 2) == 1;
    }
    MarkPlain("a + ", ref1);
    PartsFromRefWord(t, 12, 11, SpacedAddNames, false, 15, 16, ref1, "a + ", ref1, 16);
    assert Emit("a + ", ref1) == SpacedAddParts;
  }

  /** Where the scans over the body of `ADD(a , b)` stop. */
  lemma SpacedAddBodyScan()
    ensures SkipWhitespace(SpacedAddText, 10) == 11
    ensures SkipTo(SpacedAddText, 11, Word) == 11 && SkipFrom(SpacedAddText, 11, Word) == 12
    ensures SkipTo(SpacedAddText, 12, Word) == 15 && SkipFrom(SpacedAddText, 15, Word) == 16
    ensures SpacedAddText[11..12] == "a" && SpacedAddText[15..16] == "b" && SpacedAddText[11..15] == "a + "
    ensures SkipWhitespace(SpacedAddText, 16) == 16
  {
    var t := SpacedAddText;
    assert t[10] == ' ';
    assert t[11] == 'a';
    assert t[12] == ' ';
    assert t[13] == '+';
    assert t[14] == ' ';
    assert t[15] == 'b';
    assert |t[11..15]| == 4;
    assert SkipTo(t, 14, Word) == 15;
    assert SkipTo(t, 13, Word) == 15;
  }

  /** A function-like load put together from its stages: the header up to
      the `(`, the split parameter list, the `...` rule and the cut body. */
  lemma LoadPieces(t: string, name: string, c: nat, names: seq<Arg>, c2: nat,
                   params: seq<Arg>, variadic: bool, parts: seq<Part>)
    requires c <= |t| && LoadSpec(t, false) == LoadFunctionLike(t, name, c, false)
    requires SplitArgs(t, c, false) == Success((names, c2))
    requires StripVarArgs(names) == Success((params, variadic))
    requires c2 < |t| && BodyParts(t, c2 + 1, params, variadic) == parts
    ensures LoadSpec(t, false) == (Def(name, |params|, variadic, parts), Pass)
  {
    assert LoadFunctionLike(t, name, c, false) == LoadSplitNames(t, name, names, c2, false);
    LoadSplitNamesPass(t, name, names, c2, false, params, variadic);
  }

  const StrText: string := "STR(x) #x"
  const XNames: seq<Arg> := [Arg("x", false, false)]
  const StrParts: seq<Part> := [ArgRef(0, false, true, false)]

  /** `STR(x) #x` loads as one stringified reference, and with `hello` it
      expands to `"hello"`. */
  lemma StringifyQuotes()
    ensures LoadSpec(StrText, false) == (Def("STR", 1, false, StrParts), Pass)
    ensures Expansion(StrParts, 1, [Arg("hello", false, false)]) == "\"hello\""
  {
    LoadStr();
    StrExpand();
  }

  lemma StrExpand()
    ensures Expansion(StrParts, 1, [Arg("hello", false, false)]) == "\"hello\""
  {
    assert Piece(StrParts[0], 1, [Arg("hello", false, false)]) == "\"hello\"";
  }

  lemma LoadStr()
    ensures LoadSpec(StrText, false) == (Def("STR", 1, false, StrParts), Pass)
  {
    StrHeader();
    StrParams();
    OneNameStrip(XNames);
    StrBody();
    LoadPieces(StrText, "STR", 4, XNames, 5, XNames, false, StrParts);
  }

  lemma StrHeader()
    ensures LoadSpec(StrText, false) == LoadFunctionLike(StrText, "STR", 4, false)
  {
    var t := StrText;
    assert NameStart(t) == 0 && SkipTo(t, 0, NameEnd) == 3 && AfterName(t) == 3;
    assert t[0..3] == "STR";
  }

  /** A single parameter other than `...` passes the `...` rule unchanged. */
  lemma OneNameStrip(names: seq<Arg>)
    requires |names| == 1 && names[0].text != Ellipsis
    ensures StripVarArgs(names) == Success((names, false))
  {
  }

  lemma StrParams()
    ensures SplitArgs(StrText, 4, false) == Success((XNames, 5))
  {
    var t := StrText;
    assert SkipWhitespace(t, 4) == 4 && SkipTo(t, 4, CloseParen) == 5;
    assert SkipTo(t, 4, FieldEnd) == 5;
    FieldsFromUnfold(t, 4, 5, false, 4, 4, 5);
    assert t[4..5] == "x";
    assert FieldsFrom(t, 5, 5, false) == [];
    assert FieldsFrom(t, 4, 5, false) == XNames;
    assert SkipWhitespace(t, 5) == 5;
  }

  /** The `#` before `x` is cut off and marks the reference. */
  lemma StrBody()
    ensures BodyParts(StrText, 6, XNames, false) == StrParts
  {
    var t := StrText;
    var ref0 := ArgRef(0, false, false, false);
    assert SkipWhitespace(t, 6) == 7;
    assert SkipTo(t, 7, Word) == 8 && SkipFrom(t, 8, Word) == 9;
    assert t[8..9] == "x" && WordRef("x", XNames, false) == Some(ref0);
    assert t[7..8] == "#" && Mark("#", ref0) == ("", ref0.(stringify := true));
    assert SkipWhitespace(t, 9) == 9;
    PartsFromRefWord(t, 7, 7, XNames, false, 8, 9, ref0, "", ref0.(stringify := true), 9);
    assert PartsFrom(t, 9, 9, XNames, false) == [];
  }

  /** With one named parameter and the extra arguments `a` and an empty one,
      `__VA_ARGS__` is `a,`; under `##` the comma before the empty last
      argument is dropped. */
  lemma VariadicTrailingComma()
    ensures VarJoin([Arg("fmt", false, false), Arg("a", false, false), Arg("", false, false)], 1, false) == "a,"
    ensures VarJoin([Arg("fmt", false, false), Arg("a", false, false), Arg("", false, false)], 1, true) == "a"
  {
    var args := [Arg("fmt", false, false), Arg("a", false, false), Arg("", false, false)];
    assert VarText(args, 1, 1) == "a" && VarText(args, 1, 2) == "";
    assert VarJoinFrom(args, 1, 3, false) == "" && VarJoinFrom(args, 1, 3, true) == "";
  }

  const CatText: string := "CAT(a, b) a##b"
  const CatParts: seq<Part> := [ArgRef(0, false, false, false), ArgRef(1, false, false, true)]

  /** `CAT(a, b) a##b` loads as a reference and a pasted reference; with
      `foo` and `bar` no space separates the two. */
  lemma PasteJoins()
    ensures LoadSpec(CatText, false) == (Def("CAT", 2, false, CatParts), Pass)
    ensures Expansion(CatParts, 2, [Arg("foo", false, false), Arg("bar", false, false)]) == "foobar"
  {
    LoadCat();
    CatExpand();
  }

  lemma LoadCat()
    ensures LoadSpec(CatText, false) == (Def("CAT", 2, false, CatParts), Pass)
  {
    CatHeader();
    CatParams();
    AddStrip();
    CatBody();
    LoadPieces(CatText, "CAT", 4, AddNames, 8, AddNames, false, CatParts);
  }

  lemma CatHeader()
    ensures LoadSpec(CatText, false) == LoadFunctionLike(CatText, "CAT", 4, false)
  {
    var t := CatText;
    assert NameStart(t) == 0 && SkipTo(t, 0, NameEnd) == 3 && AfterName(t) == 3;
    assert t[0..3] == "CAT";
  }

  lemma CatParams()
    ensures SplitArgs(CatText, 4, false) == Success((AddNames, 8))
  {
    var t := CatText;
    CatParamScan();
    FieldsFromUnfold(t, 4, 8, false, 4, 4, 5);
    FieldsFromUnfold(t, 5, 8, false, 6, 7, 8);
    assert FieldsFrom(t, 8, 8, false) == [];
    assert FieldsFrom(t, 4, 8, false) == AddNames;
  }

  /** Where the scans over the parameter list of `CAT` stop. */
  lemma CatParamScan()
    ensures SkipWhitespace(CatText, 4) == 4 && SkipTo(CatText, 4, CloseParen) == 8
    ensures SkipTo(CatText, 4, FieldEnd) == 5 && SkipWhitespace(CatText, 6) == 7
    ensures SkipTo(CatText, 7, FieldEnd) == 8 && SkipWhitespace(CatText, 8) == 8
    ensures CatText[4..5] == "a" && CatText[7..8] == "b"
  {
  }

  lemma CatBody()
    ensures BodyParts(CatText, 9, AddNames, false) == CatParts
  {
    assert SkipWhitespace(CatText, 9) == 10;
    CatFirstRef();
    CatSecondRef();
    assert PartsFrom(CatText, 14, 14, AddNames, false) == [];
  }

  lemma CatFirstRef()
    ensures PartsFrom(CatText, 10, 10, AddNames, false)
         == [ArgRef(0, false, false, false)] + PartsFrom(CatText, 11, 11, AddNames, false)
  {
    var t := CatText;
    var ref0 := ArgRef(0, false, false, false);
    CatScan();
    AddNamesRefs();
    MarkPlain("", ref0);
    PartsFromRefWord(t, 10, 10, AddNames, false, 10, 11, ref0, "", ref0, 11);
    assert Emit("", ref0) == [ref0];
  }

  /** The `##` before `b` is cut off and marks the reference for pasting. */
  lemma CatSecondRef()
    ensures PartsFrom(CatText, 11, 11, AddNames, false)
         == [ArgRef(1, false, false, true)] + PartsFrom(CatText, 14, 14, AddNames, false)
  {
    var t := CatText;
    var ref1 := ArgRef(1, false, false, false);
    CatScan();
    AddNamesRefs();
    MarkPaste("", ref1);
    PartsFromRefWord(t, 11, 11, AddNames, false, 13, 14, ref1, "", ref1.(concat := true), 14);
    assert Emit("", ref1.(concat := true)) == [ref1.(concat := true)];
  }

  /** Where the scans over the body of `CAT` stop. */
  lemma CatScan()
    ensures SkipTo(CatText, 10, Word) == 10 && SkipFrom(CatText, 10, Word) == 11
    ensures SkipWhitespace(CatText, 11) == 11 && CatText[10..11] == "a" && CatText[10..10] == ""
    ensures SkipTo(CatText, 11, Word) == 13 && SkipFrom(CatText, 13, Word) == 14
    ensures SkipWhitespace(CatText, 14) == 14 && CatText[13..14] == "b" && CatText[11..13] == "##"
  {
  }

  /** `a` and `b` refer to the parameters of `ADD` and `CAT`. */
  lemma AddNamesRefs()
    ensures WordRef("a", AddNames, false) == Some(ArgRef(0, false, false, false))
    ensures WordRef("b", AddNames, false) == Some(ArgRef(1, false, false, false))
  {
    assert LastMatch(AddNames, "a", 2) == 0 by {
      assert AddNames[1].text != "a" && AddNames[0].text == "a";
    }
    assert LastMatch(AddNames, "b", 2) == 1 by {
      assert AddNames[1].text == "b";
    }
  }

  /** Text that does not end in `#` marks nothing. */
  lemma MarkPlain(str: string, ref: Part)
    requires ref.ArgRef? && !ref.stringify && !ref.concat
    requires str == [] || str[|str| - 1] != '#'
    ensures Mark(str, ref) == (str, ref)
  {
  }

  /** A trailing `##` is cut off and marks pasting. */
  lemma MarkPaste(str: string, ref: Part)
    requires ref.ArgRef? && !ref.stringify && !ref.concat
    ensures Mark(str + "##", ref) == (str, ref.(concat := true))
  {
    var t := str + "##";
    assert t[|t| - 1] == '#' && t[|t| - 2] == '#';
    assert t[..|t| - 2] == str;
  }

  lemma CatExpand()
    ensures Expansion(CatParts, 2, [Arg("foo", false, false), Arg("bar", false, false)]) == "foobar"
  {
    assert CatParts[1..] == [ArgRef(1, false, false, true)];
  }

  const LogText: string := "LOG(fmt, ...) printf(fmt, ##__VA_ARGS__)"
  const LogNames: seq<Arg> := [Arg("fmt", false, false), Arg("...", false, false)]
  const FmtNames: seq<Arg> := [Arg("fmt", false, false)]
  const LogParts: seq<Part> :=
    [Literal("printf("), ArgRef(0, false, false, false), Literal(", "), ArgRef(-1, true, false, true), Literal(")")]

  /** `LOG(fmt, ...) printf(fmt, ##__VA_ARGS__)` loads as a variadic macro
      with one parameter. Its body is cut into `printf(`, `fmt`, the literal
      `, ` (only the `##` is removed), the pasted variadic reference, then
      `)`. With `msg` alone the comma stays: the result is `printf( msg , )`. */
  lemma PastedVarArgsKeepLiteralComma()
    ensures LoadSpec(LogText, false) == (Def("LOG", 1, true, LogParts), Pass)
    ensures Expansion(LogParts, 1, [Arg("msg", false, false)]) == "printf( msg , )"
  {
    LoadLog();
    LogExpand();
  }

  lemma LoadLog()
    ensures LoadSpec(LogText, false) == (Def("LOG", 1, true, LogParts), Pass)
  {
    LogHeader();
    LogParams();
    LogStrip();
    LogBody();
    LoadPieces(LogText, "LOG", 4, LogNames, 12, FmtNames, true, LogParts);
  }

  lemma LogHeader()
    ensures LoadSpec(LogText, false) == LoadFunctionLike(LogText, "LOG", 4, false)
  {
    LogNameScan();
    FunctionLikeHeader(LogText, "LOG");
  }

  /** Where the scans over the name of `LOG` stop. */
  lemma LogNameScan()
    ensures NameStart(LogText) == 0 && NameStop(LogText) == 3 && AfterName(LogText) == 3
    ensures IsIdentStart(LogText[0]) && LogText[3] == '(' && LogText[0..3] == "LOG"
  {
    var t := LogText;
    assert t[0] == 'L';
    assert t[1] == 'O';
    assert t[2] == 'G';
    assert t[3] == '(';
    assert |t[0..3]| == 3;
    assert SkipTo(t, 2, NameEnd) == 3;
    assert SkipTo(t, 1, NameEnd) == 3;
  }

  /** A text that starts with a name directly followed by `(` is loaded as a
      function-like macro of that name, from just after the `(`. */
  lemma FunctionLikeHeader(t: string, name: string)
    requires |name| < |t| && NameStart(t) == 0 && NameStop(t) == |name| && AfterName(t) == |name|
    requires IsIdentStart(t[0]) && t[|name|] == '(' && t[0..|name|] == name
    ensures LoadSpec(t, false) == LoadFunctionLike(t, name, |name| + 1, false)
  {
  }

  lemma LogParams()
    ensures SplitArgs(LogText, 4, false) == Success((LogNames, 12))
  {
    var t := LogText;
    LogParamScan();
    FieldsFromUnfold(t, 4, 12, false, 4, 4, 7);
    FieldsFromUnfold(t, 7, 12, false, 8, 9, 12);
    assert FieldsFrom(t, 12, 12, false) == [];
    assert FieldsFrom(t, 4, 12, false) == LogNames;
  }

  /** Where the scans over the parameter list of `LOG` stop. */
  lemma LogParamScan()
    ensures SkipWhitespace(LogText, 4) == 4 && SkipTo(LogText, 4, CloseParen) == 12
    ensures SkipTo(LogText, 4, FieldEnd) == 7 && SkipWhitespace(LogText, 8) == 9
    ensures SkipTo(LogText, 9, FieldEnd) == 12 && SkipWhitespace(LogText, 12) == 12
    ensures LogText[4..7] == "fmt" && LogText[9..12] == "..."
  {
    LogCloseScan();
    LogFieldScan();
  }

  lemma LogCloseScan()
    ensures SkipTo(LogText, 4, CloseParen) == 12
  {
    var t := LogText;
    LogCloseScanTail();
    assert t[5] == 'm';
    assert t[6] == 't';
    assert t[7] == ',';
    assert SkipTo(t, 7, CloseParen) == 12;
    assert SkipTo(t, 6, CloseParen) == 12;
    assert SkipTo(t, 5, CloseParen) == 12;
  }

  lemma LogCloseScanTail()
    ensures SkipTo(LogText, 8, CloseParen) == 12
  {
    var t := LogText;
    assert t[8] == ' ';
    assert t[9] == '.';
    assert t[10] == '.';
    assert t[11] == '.';
    assert t[12] == ')';
    assert SkipTo(t, 11, CloseParen) == 12;
    assert SkipTo(t, 10, CloseParen) == 12;
    assert SkipTo(t, 9, CloseParen) == 12;
  }

  lemma LogFieldScan()
    ensures SkipWhitespace(LogText, 4) == 4
    ensures SkipTo(LogText, 4, FieldEnd) == 7 && SkipWhitespace(LogText, 8) == 9
    ensures SkipTo(LogText, 9, FieldEnd) == 12 && SkipWhitespace(LogText, 12) == 12
    ensures LogText[4..7] == "fmt" && LogText[9..12] == "..."
  {
    var t := LogText;
    assert t[4] == 'f';
    assert t[5] == 'm';
    assert t[6] == 't';
    assert t[7] == ',';
    assert t[8] == ' ';
    assert t[9] == '.';
    assert t[10] == '.';
    assert t[11] == '.';
    assert t[12] == ')';
    assert |t[4..7]| == 3 && |t[9..12]| == 3;
    assert SkipTo(t, 6, FieldEnd) == 7;
    assert SkipTo(t, 5, FieldEnd) == 7;
    assert SkipTo(t, 11, FieldEnd) == 12;
    assert SkipTo(t, 10, FieldEnd) == 12;
  }

  /** A last `...` is dropped and makes the macro variadic. */
  lemma LogStrip()
    ensures StripVarArgs(LogNames) == Success((FmtNames, true))
  {
    assert LogNames[1..] == [Arg("...", false, false)];
    assert LogNames[..1] == FmtNames;
  }

  lemma LogBody()
    ensures BodyParts(LogText, 13, FmtNames, true) == LogParts
  {
    LogScanPrintf();
    LogBodyFrom();
  }

  lemma LogBodyFrom()
    ensures PartsFrom(LogText, 14, 14, FmtNames, true) == LogParts
  {
    LogBodyHead();
    LogBodyTail();
    assert LogParts == [Literal("printf("), ArgRef(0, false, false, false)]
                       + [Literal(", "), ArgRef(-1, true, false, true), Literal(")")];
  }

  lemma LogBodyHead()
    ensures PartsFrom(LogText, 14, 14, FmtNames, true)
         == [Literal("printf("), ArgRef(0, false, false, false)] + PartsFrom(LogText, 24, 24, FmtNames, true)
  {
    LogPrintf();
    LogFmt();
  }

  lemma LogBodyTail()
    ensures PartsFrom(LogText, 24, 24, FmtNames, true)
         == [Literal(", "), ArgRef(-1, true, false, true), Literal(")")]
  {
    LogVarArgs();
    LogTail();
  }

  /** Where the scans over `printf` stop. */
  lemma LogScanPrintf()
    ensures SkipWhitespace(LogText, 13) == 14 && SkipTo(LogText, 14, Word) == 14
    ensures SkipFrom(LogText, 14, Word) == 20 && LogText[14..20] == "printf"
  {
    var t := LogText;
    assert SkipFrom(t, 20, Word) == 20;
    assert SkipFrom(t, 19, Word) == 20;
    assert SkipFrom(t, 18, Word) == 20;
    assert SkipFrom(t, 17, Word) == 20;
    assert SkipFrom(t, 16, Word) == 20;
    assert SkipFrom(t, 15, Word) == 20;
    assert t[14] == 'p';
    assert t[15] == 'r';
    assert t[16] == 'i';
    assert t[17] == 'n';
    assert t[18] == 't';
    assert t[19] == 'f';
    assert |t[14..20]| == 6;
  }

  /** Where the scans over `(fmt` stop. */
  lemma LogScanFmt()
    ensures SkipTo(LogText, 20, Word) == 21 && SkipFrom(LogText, 21, Word) == 24
    ensures LogText[21..24] == "fmt" && SkipWhitespace(LogText, 24) == 24
    ensures LogText[14..21] == "printf("
  {
    var t := LogText;
    assert SkipFrom(t, 24, Word) == 24;
    assert SkipFrom(t, 23, Word) == 24;
    assert SkipFrom(t, 22, Word) == 24;
    forall k | 0 <= k < 7 ensures t[14..21][k] == "printf("[k] {
      assert t[14..21][k] == t[14 + k];
    }
  }

  /** Where the scans over `, ##__VA_ARGS__` stop. */
  lemma LogScanVarArgs()
    ensures SkipTo(LogText, 24, Word) == 28 && SkipFrom(LogText, 28, Word) == 39
    ensures LogText[28..39] == VaArgs && LogText[24..28] == ", " + "##" && SkipWhitespace(LogText, 39) == 39
  {
    LogScanPaste();
    LogScanVaWord();
  }

  lemma LogScanPaste()
    ensures SkipTo(LogText, 24, Word) == 28 && LogText[24..28] == ", " + "##"
  {
    var t := LogText;
    assert t[24] == ',';
    assert t[25] == ' ';
    assert t[26] == '#';
    assert t[27] == '#';
    assert t[28] == '_';
    assert SkipTo(t, 27, Word) == 28;
    assert SkipTo(t, 26, Word) == 28;
    assert SkipTo(t, 25, Word) == 28;
    assert |t[24..28]| == 4;
  }

  lemma LogScanVaWord()
    ensures SkipFrom(LogText, 28, Word) == 39 && LogText[28..39] == VaArgs && SkipWhitespace(LogText, 39) == 39
  {
    var t := LogText;
    assert t[39] == ')';
    assert t[38] == '_';
    assert t[37] == '_';
    assert t[36] == 'S';
    assert t[35] == 'G';
    assert t[34] == 'R';
    assert t[33] == 'A';
    assert t[32] == '_';
    assert t[31] == 'A';
    assert t[30] == 'V';
    assert t[29] == '_';
    assert t[28] == '_';
    forall k | 0 <= k < 11 ensures t[28..39][k] == VaArgs[k] {
      assert t[28..39][k] == t[28 + k];
    }
  }

  /** Where the scans over the closing `)` stop. */
  lemma LogScanTail()
    ensures SkipTo(LogText, 39, Word) == 40 && SkipFrom(LogText, 40, Word) == 40
    ensures LogText[40..40] == "" && LogText[39..] == ")"
  {
  }

  /** `printf` is no parameter: it stays in the pending literal. */
  lemma LogPrintf()
    ensures PartsFrom(LogText, 14, 14, FmtNames, true) == PartsFrom(LogText, 20, 14, FmtNames, true)
  {
    LogScanPrintf();
    assert WordRef("printf", FmtNames, true) == None by {
      assert FmtNames[0].text != "printf";
    }
    PartsFromPlainWord(LogText, 14, 14, FmtNames, true, 14, 20);
  }

  /** `fmt` is parameter 0; the pending `printf(` becomes a literal. */
  lemma LogFmt()
    ensures PartsFrom(LogText, 20, 14, FmtNames, true)
         == [Literal("printf("), ArgRef(0, false, false, false)] + PartsFrom(LogText, 24, 24, FmtNames, true)
  {
    var ref0 := ArgRef(0, false, false, false);
    LogScanFmt();
    assert WordRef("fmt", FmtNames, true) == Some(ref0) by {
      assert LastMatch(FmtNames, "fmt", 1) == 0;
    }
    MarkPlain("printf(", ref0);
    PartsFromRefWord(LogText, 20, 14, FmtNames, true, 21, 24, ref0, "printf(", ref0, 24);
    assert Emit("printf(", ref0) == [Literal("printf("), ref0];
  }

  /** `__VA_ARGS__` is the variadic reference; the `##` before it is cut off
      and marks it for pasting, and the comma stays in the literal. */
  lemma LogVarArgs()
    ensures PartsFrom(LogText, 24, 24, FmtNames, true)
         == [Literal(", "), ArgRef(-1, true, false, true)] + PartsFrom(LogText, 39, 39, FmtNames, true)
  {
    var va := ArgRef(-1, true, false, false);
    LogScanVarArgs();
    assert WordRef(VaArgs, FmtNames, true) == Some(va) by {
      assert LastMatch(FmtNames, VaArgs, 1) == -1;
    }
    MarkPaste(", ", va);
    PartsFromRefWord(LogText, 24, 24, FmtNames, true, 28, 39, va, ", ", va.(concat := true), 39);
    assert Emit(", ", va.(concat := true)) == [Literal(", "), va.(concat := true)];
  }

  /** The `)` after the last reference is the closing literal. */
  lemma LogTail()
    ensures PartsFrom(LogText, 39, 39, FmtNames, true) == [Literal(")")]
  {
    LogScanTail();
    assert WordRef("", FmtNames, true) == None by {
      assert LastMatch(FmtNames, "", 1) == -1;
    }
    PartsFromPlainWord(LogText, 39, 39, FmtNames, true, 40, 40);
  }

  lemma LogExpand()
    ensures Expansion(LogParts, 1, [Arg("msg", false, false)]) == "printf( msg , )"
  {
    var parts := LogParts;
    PrintfFromFormat();
    ExpansionHead(parts, 1, [Arg("msg", false, false)]);
    assert parts[1..] == PrintfFromFormatParts;
  }

  const PrintfFromFormatParts: seq<Part> :=
    [ArgRef(0, false, false, false), Literal(", "), ArgRef(-1, true, false, true), Literal(")")]

  lemma PrintfFromFormat()
    ensures Expansion(PrintfFromFormatParts, 1, [Arg("msg", false, false)]) == "msg , )"
  {
    var parts := PrintfFromFormatParts;
    PrintfFromComma();
    ExpansionHead(parts, 1, [Arg("msg", false, false)]);
    assert parts[1..] == [Literal(", "), ArgRef(-1, true, false, true), Literal(")")];
  }

  lemma PrintfFromComma()
    ensures Expansion([Literal(", "), ArgRef(-1, true, false, true), Literal(")")], 1, [Arg("msg", false, false)]) == ", )"
  {
    var parts := [Literal(", "), ArgRef(-1, true, false, true), Literal(")")];
    PrintfFromVarArgs();
    ExpansionHead(parts, 1, [Arg("msg", false, false)]);
    assert parts[1..] == [ArgRef(-1, true, false, true), Literal(")")];
  }

  lemma PrintfFromVarArgs()
    ensures Expansion([ArgRef(-1, true, false, true), Literal(")")], 1, [Arg("msg", false, false)]) == ")"
  {
    var parts := [ArgRef(-1, true, false, true), Literal(")")];
    var args := [Arg("msg", false, false)];
    assert Piece(parts[0], 1, args) == "";
    ExpansionSingle(Literal(")"), 1, args);
    ExpansionHead(parts, 1, args);
    assert parts[1..] == [Literal(")")];
  }
}
