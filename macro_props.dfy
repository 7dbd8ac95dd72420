/** Laws that tie a load to the expansions of what it loaded. */
module MacroProps {
  import opened Lex
  import opened MacroTypes
  import opened MacroLoad
  import opened MacroExpand

  /** An object-like macro expands to the text after its name, verbatim,
      whatever the arguments; `expand()` gives the same text. */
  lemma ObjectLikeExpandsVerbatim(text: string, hadVarArgs: bool, args: seq<Arg>)
    requires IsIdentStart(At(text, NameStart(text)))
    requires At(text, AfterName(text)) != '('
    ensures var d := LoadSpec(text, hadVarArgs).0;
      && Expansion(d.parts, d.argc, args) == text[AfterName(text)..]
      && NoArgsExpansion(d) == text[AfterName(text)..]
  {
    var d := LoadSpec(text, hadVarArgs).0;
    var body := text[AfterName(text)..];
    assert d.parts == [Literal(body)];
    assert Expansion(d.parts, d.argc, args) == body + "" + Expansion([], d.argc, args);
  }

  /** Text that is not a definition loads an empty macro, which expands to
      nothing in every way it can be expanded. */
  lemma NotANameExpandsToNothing(text: string, hadVarArgs: bool, args: seq<Arg>, s: string)
    requires !IsIdentStart(At(text, NameStart(text)))
    ensures var d := LoadSpec(text, hadVarArgs).0;
      && Expansion(d.parts, d.argc, args) == ""
      && NoArgsExpansion(d) == ""
      && (TextExpansion(d, s).Success? ==> TextExpansion(d, s).value == "")
  {
    LoadNotAName(text, hadVarArgs);
  }

  /** `expand(s)` fails exactly when `s` holds no ')', and then with the
      missing-parenthesis error; otherwise it expands the arguments before
      the first ')'. */
  lemma TextExpansionNeedsCloseParen(d: Def, s: string)
    ensures TextExpansion(d, s).Failure? <==> ')' !in s
    ensures TextExpansion(d, s).Failure? ==> TextExpansion(d, s).error == MissingCloseParen
    ensures TextExpansion(d, s).Success? ==>
      exists e :: 0 <= e < |s| && s[e] == ')' && ')' !in s[..e]
  {
    assert s[0..] == s;
    SplitArgsFields(s, 0, true);
    if ')' in s {
      var e := SplitArgs(s, 0, true).value.1;
      assert s[..e] == s[0..e];
    }
  }

  /** A load never clears the variadic flag: the name, the parameter count
      and the outcome do not depend on the flag the macro had before, and
      the flag afterwards is the old one or'ed with the one the text itself
      declares. */
  lemma LoadKeepsVariadicFlag(text: string, hadVarArgs: bool)
    ensures SameButFlag(LoadSpec(text, hadVarArgs), LoadSpec(text, false), hadVarArgs)
  {
    var c := NameStart(text);
    var c1 := AfterName(text);
    var name := text[c..NameStop(text)];
    if !IsIdentStart(At(text, c)) {
      LoadNotAName(text, hadVarArgs);
      LoadNotAName(text, false);
    } else if At(text, c1) != '(' {
      LoadSpecObjectLike(text, hadVarArgs, name, c1);
      LoadSpecObjectLike(text, false, name, c1);
    } else {
      LoadSpecFunctionLike(text, hadVarArgs, name, c1);
      LoadSpecFunctionLike(text, false, name, c1);
      FunctionLikeKeepsVariadicFlag(text, name, c1 + 1, hadVarArgs);
    }
  }

  /** The outcomes `r` and `r0` of the same load from a macro that had the
      variadic flag `hadVarArgs` and from one that had not. */
  predicate SameButFlag(r: (Def, Outcome<LoadError>), r0: (Def, Outcome<LoadError>), hadVarArgs: bool)
  {
    && r.1 == r0.1 && r.0.name == r0.0.name && r.0.argc == r0.0.argc
    && r.0.hasVarArgs == (hadVarArgs || r0.0.hasVarArgs)
  }

  lemma FunctionLikeKeepsVariadicFlag(text: string, name: string, c: nat, hadVarArgs: bool)
    requires c <= |text|
    ensures SameButFlag(LoadFunctionLike(text, name, c, hadVarArgs), LoadFunctionLike(text, name, c, false), hadVarArgs)
  {
    var split := SplitArgs(text, c, false);
    if split.Success? {
      var names, c2 := split.value.0, split.value.1;
      assert LoadFunctionLike(text, name, c, hadVarArgs) == LoadSplitNames(text, name, names, c2, hadVarArgs);
      assert LoadFunctionLike(text, name, c, false) == LoadSplitNames(text, name, names, c2, false);
    }
  }

  /** `expand()` takes a shortcut for a macro without named parameters: the
      first part's text. For any loaded macro that is not variadic the
      shortcut gives what expanding with no arguments gives. */
  lemma NoArgsShortcutSound(text: string, hadVarArgs: bool)
    requires !LoadSpec(text, hadVarArgs).0.hasVarArgs
    ensures var d := LoadSpec(text, hadVarArgs).0;
      NoArgsExpansion(d) == Expansion(d.parts, d.argc, [])
  {
    var d := LoadSpec(text, hadVarArgs).0;
    LoadedWithoutParams(text, hadVarArgs);
    if d.argc == 0 && d.parts != [] {
      assert Expansion(d.parts, d.argc, []) == d.parts[0].text + "" + Expansion([], d.argc, []);
    }
  }

  /** A loaded macro that has no parameters and is not variadic has at most
      one part, a literal. */
  lemma LoadedWithoutParams(text: string, hadVarArgs: bool)
    ensures PlainBodyIsOneLiteral(LoadSpec(text, hadVarArgs).0)
  {
    var c := NameStart(text);
    var c1 := AfterName(text);
    var name := text[c..NameStop(text)];
    if !IsIdentStart(At(text, c)) {
      LoadNotAName(text, hadVarArgs);
    } else if At(text, c1) != '(' {
      LoadSpecObjectLike(text, hadVarArgs, name, c1);
    } else {
      LoadSpecFunctionLike(text, hadVarArgs, name, c1);
      FunctionLikeWithoutParams(text, name, c1 + 1, hadVarArgs);
    }
  }

  /** A definition without parameters that is not variadic has at most one
      part, and that one literal. */
  predicate PlainBodyIsOneLiteral(d: Def)
  {
    d.argc == 0 && !d.hasVarArgs ==> |d.parts| <= 1 && (d.parts != [] ==> d.parts[0].Literal?)
  }

  lemma FunctionLikeWithoutParams(text: string, name: string, c: nat, hadVarArgs: bool)
    requires c <= |text|
    ensures PlainBodyIsOneLiteral(LoadFunctionLike(text, name, c, hadVarArgs).0)
  {
    var split := SplitArgs(text, c, false);
    if split.Success? {
      var names, c2 := split.value.0, split.value.1;
      assert LoadFunctionLike(text, name, c, hadVarArgs) == LoadSplitNames(text, name, names, c2, hadVarArgs);
      var strip := StripVarArgs(names);
      if strip.Success? && strip.value.0 == [] && !(hadVarArgs || strip.value.1) {
        LoadSplitNamesPass(text, name, names, c2, hadVarArgs, [], false);
        BodyWithoutParams(text, c2 + 1);
      }
    }
  }

  /** A variadic macro without named parameters, such as one defined as
      `F(...) a __VA_ARGS__ b`, is cut into a literal, the variadic reference
      and a literal. `expand()` then yields only the first literal, while
      expanding with no arguments yields both literals. */
  lemma NoArgsShortcutDropsVariadicBody(name: string, a: string, b: string)
    requires a != [] && b != []
    ensures var d := Def(name, 0, true, [Literal(a), ArgRef(-1, true, false, false), Literal(b)]);
      && NoArgsExpansion(d) == a
      && Expansion(d.parts, d.argc, []) == a + " " + b
  {
    var parts := [Literal(a), ArgRef(-1, true, false, false), Literal(b)];
    assert Piece(parts[1], 0, []) == "";
    assert parts[1..][1..] == [Literal(b)];
    assert Expansion([Literal(b)], 0, []) == b + "" + Expansion([], 0, []);
    assert Expansion(parts[1..], 0, []) == "" + "" + b;
  }
}
