/** The macro object: a definition loaded from `#define` text and expanded
    against actual arguments. Each method follows the corresponding member
    function step by step and is proved to compute the functions of
    `MacroLoad` and `MacroExpand`. */
module MacroClass {
  import opened Lex
  import opened MacroTypes
  import opened MacroLoad
  import opened MacroExpand

  class Macro {
    var name: string
    var argc: nat
    var hasVarArgs: bool
    var parts: seq<Part>
    var definedLine: int
    var undefinedLine: int

    /** The fields a load determines. */
    function Current(): (r: Def)
      reads this
    {
      Def(name, argc, hasVarArgs, parts)
    }

    /** Every reference of the body names an existing parameter, or is the
        variadic reference of a variadic macro. */
    predicate Valid()
      reads this
    {
      RefsInRange(Current())
    }

    /** A fresh macro: no name, no parameters, no body, not variadic, and no
        source lines. */
    constructor ()
      ensures Valid()
      ensures Current() == Def("", 0, false, [])
      ensures definedLine == -1 && undefinedLine == -1
    {
      name := "";
      argc := 0;
      hasVarArgs := false;
      parts := [];
      definedLine := -1;
      undefinedLine := -1;
    }

    /** Empties the macro. The variadic flag is left as it was. */
    method Clear()
      modifies this
      ensures Valid()
      ensures Current() == Def("", 0, old(hasVarArgs), [])
      ensures definedLine == -1 && undefinedLine == -1
    {
      name := "";
      argc := 0;
      parts := [];
      definedLine := -1;
      undefinedLine := -1;
    }

    /** Loads the definition held by the whole of `s`. */
    method Load(s: string) returns (status: Outcome<LoadError>)
      modifies this
      ensures Valid()
      ensures (Current(), status) == LoadSpec(s, old(hasVarArgs))
      ensures definedLine == -1 && undefinedLine == -1
    {
      assert s[..|s|] == s;
      status := LoadChars(s, |s|);
    }

    /** Loads the definition held by the first `chars` characters of `c`:
        the name, then, when a '(' follows it, the parameter list, the "..."
        rule and the body; otherwise the rest of the text is the body. A
        fatal error stops the load, leaving what was set by then. */
    method LoadChars(c: string, chars: nat) returns (status: Outcome<LoadError>)
      requires chars <= |c|
      modifies this
      ensures Valid()
      ensures (Current(), status) == LoadSpec(c[..chars], old(hasVarArgs))
      ensures definedLine == -1 && undefinedLine == -1
    {
      var text := c[..chars];
      LoadedRefsInRange(text, hasVarArgs);
      Clear();
      var p := SkipWhitespace(text, 0);
      if !IsIdentStart(At(text, p)) {
        status := Pass;
        return;
      }
      status := LoadDefinition(text, p);
    }

    /** A load once the text is known to start (after whitespace, at `c`)
        with a letter or '_': the name, then either an object-like body or
        the parameter list and body. */
    method LoadDefinition(text: string, c: nat) returns (status: Outcome<LoadError>)
      requires c == NameStart(text) && IsIdentStart(At(text, c))
      requires name == [] && argc == 0 && parts == []
      modifies this`name, this`argc, this`hasVarArgs, this`parts
      ensures (Current(), status) == LoadSpec(text, old(hasVarArgs))
    {
      ghost var had := hasVarArgs;
      var p := LoadName(text, c);
      if At(text, p) != '(' {
        LoadSpecObjectLike(text, had, name, p);
        parts := parts + [Literal(text[p..])];
        assert parts == [Literal(text[p..])];
        status := Pass;
        return;
      }
      LoadSpecFunctionLike(text, had, name, p);
      status := LoadParamsAndBody(text, p + 1);
    }

    /** The rest of a load after the '(' that follows the name: the
        parameter names up to ')', the "..." check, then the body after the
        ')'. */
    method LoadParamsAndBody(text: string, c: nat) returns (status: Outcome<LoadError>)
      requires c <= |text| && argc == 0 && parts == []
      modifies this`argc, this`hasVarArgs, this`parts
      ensures (Current(), status) == LoadFunctionLike(text, name, c, old(hasVarArgs))
    {
      var split := LoadArgs(text, c, false);
      if split.Failure? {
        return Fail(split.error);
      }
      argc := |split.value.0|;
      status := LoadParamsBody(text, split.value.0, split.value.1);
    }

    /** The "..." rule and the body, once the parameter names are split and
        the cursor `bodyStart` rests on the closing ')'. */
    method LoadParamsBody(text: string, argNames: seq<Arg>, bodyStart: nat) returns (status: Outcome<LoadError>)
      requires bodyStart < |text| && argc == |argNames| && parts == []
      modifies this`argc, this`hasVarArgs, this`parts
      ensures (Current(), status) == LoadSplitNames(text, name, argNames, bodyStart, old(hasVarArgs))
    {
      ghost var had := hasVarArgs;
      var params, ok := CheckVarArgs(argNames);
      if !ok {
        return Fail(VarArgsNotLast);
      }
      LoadSplitNamesPass(text, name, argNames, bodyStart, had, params, hasVarArgs);
      SetParts(text, bodyStart + 1, params);
      assert parts == BodyParts(text, bodyStart + 1, params, hasVarArgs);
      status := Pass;
    }

    /** The check-and-remove loop of a load: "..." may only be the last
        parameter; there it is removed, `argc` drops by one and the macro
        becomes variadic. `ok` is false when "..." comes earlier. */
    method CheckVarArgs(argNames: seq<Arg>) returns (params: seq<Arg>, ok: bool)
      requires argc == |argNames|
      modifies this`argc, this`hasVarArgs
      ensures ok == StripVarArgs(argNames).Success?
      ensures !ok ==> argc == |argNames| && hasVarArgs == old(hasVarArgs)
      ensures ok ==> && params == StripVarArgs(argNames).value.0 && argc == |params|
                     && hasVarArgs == (old(hasVarArgs) || StripVarArgs(argNames).value.1)
    {
      ghost var n := |argNames|;
      ghost var popped := false;
      params := argNames;
      var i := 0;
      while i < argc
        invariant !popped ==> && params == argNames && argc == n && i <= n && hasVarArgs == old(hasVarArgs)
                              && forall k :: 0 <= k < i ==> argNames[k].text != Ellipsis
        invariant popped ==> && n > 0 && params == argNames[..n - 1] && argc == n - 1 && i == n
                             && argNames[n - 1].text == Ellipsis && hasVarArgs
                             && forall k :: 0 <= k < n - 1 ==> argNames[k].text != Ellipsis
        decreases argc - i
      {
        if params[i].text == Ellipsis {
          if i != argc - 1 {
            assert !popped && i < n - 1;
            EllipsisBeforeLastAt(argNames);
            return params, false;
          }
          hasVarArgs := true;
          params := params[..|params| - 1];
          argc := argc - 1;
          popped := true;
        }
        i := i + 1;
      }
      ok := true;
      if !popped {
        assert i == n;
      }
      EllipsisBeforeLastAt(argNames);
    }

    /** Reads the name: up to whitespace or '('; then skips whitespace. */
    method LoadName(s: string, c: nat) returns (next: nat)
      requires c <= |s|
      modifies this`name
      ensures name == s[c..SkipTo(s, c, NameEnd)]
      ensures next == SkipWhitespace(s, SkipTo(s, c, NameEnd))
    {
      var nameStart := c;
      var p := SkipTo(s, c, NameEnd);
      name := s[nameStart..p];
      next := SkipWhitespace(s, p);
    }

    /** Splits the argument list that starts at cursor `c` up to the first
        ')': one argument per round, each round skipping one ',' and the
        whitespace before the argument's text. With `keepWhitespace`, each
        argument records whether whitespace was at its left and right. */
    static method LoadArgs(s: string, c: nat, keepWhitespace: bool) returns (r: Result<(seq<Arg>, nat), LoadError>)
      requires c <= |s|
      ensures r == SplitArgs(s, c, keepWhitespace)
    {
      var argsStart := SkipWhitespace(s, c);
      var argsEnd := SkipTo(s, argsStart, CloseParen);
      if At(s, argsEnd) != ')' {
        return Failure(MissingCloseParen);
      }
      assert forall k :: argsStart <= k < argsEnd ==> s[k] != ')' by {
        SkipToPasses(s, argsStart, CloseParen);
        forall k | argsStart <= k < argsEnd ensures s[k] != ')' {
          assert !InCharset(s[k], CloseParen);
        }
      }
      ghost var whole := FieldsFrom(s, argsStart, argsEnd, keepWhitespace);
      var args: seq<Arg> := [];
      var p := argsStart;
      while p < argsEnd
        invariant argsStart <= p <= argsEnd
        invariant args + FieldsFrom(s, p, argsEnd, keepWhitespace) == whole
        decreases argsEnd - p
      {
        var start := if s[p] == ',' then p + 1 else p;
        var argStart := SkipWhitespace(s, start);
        var argEnd := SkipTo(s, argStart, FieldEnd);
        var arg := Arg(s[argStart..argEnd],
                       keepWhitespace && IsWhitespace(At(s, start)),
                       keepWhitespace && IsWhitespace(At(s, argEnd - 1)));
        FieldsFromUnfold(s, p, argsEnd, keepWhitespace, start, argStart, argEnd);
        ghost var rest := FieldsFrom(s, argEnd, argsEnd, keepWhitespace);
        assert args + [arg] + rest == args + ([arg] + rest);
        args := args + [arg];
        p := argEnd;
      }
      assert FieldsFrom(s, p, argsEnd, keepWhitespace) == [];
      assert args == whole;
      assert SplitArgs(s, c, keepWhitespace) == Success((whole, SkipWhitespace(s, argsEnd)));
      r := Success((args, SkipWhitespace(s, argsEnd)));
    }

    /** Cuts the body that starts at cursor `c0` into parts. Word runs that
        spell a parameter (the last one so spelled) or, in a variadic macro,
        `__VA_ARGS__` become references; the text before a reference becomes
        a literal, less a trailing `##` or `#` that marks the reference. */
    method SetParts(s: string, c0: nat, argNames: seq<Arg>)
      requires c0 <= |s| && argc == |argNames|
      modifies this`parts
      ensures parts == old(parts) + BodyParts(s, c0, argNames, hasVarArgs)
    {
      ghost var whole := old(parts) + BodyParts(s, c0, argNames, hasVarArgs);
      var c: nat := SkipWhitespace(s, c0);
      var cStart: nat := c;
      while c < |s|
        invariant cStart <= c <= |s|
        invariant parts + PartsFrom(s, c, cStart, argNames, hasVarArgs) == whole
        decreases |s| - c
      {
        c, cStart := CutWord(s, c, cStart, argNames);
      }
      assert s[cStart..c] == s[cStart..];
      if cStart < c {
        parts := parts + [Literal(s[cStart..c])];
      }
    }

    /** One round of the body cutter: the next word run, and, when it is a
        reference, the literal text before it and the reference itself. */
    method CutWord(s: string, c: nat, cStart: nat, argNames: seq<Arg>) returns (next: nat, nextStart: nat)
      requires cStart <= c < |s| && argc == |argNames|
      modifies this`parts
      ensures c < next && nextStart <= next <= |s|
      ensures parts + PartsFrom(s, next, nextStart, argNames, hasVarArgs)
           == old(parts) + PartsFrom(s, c, cStart, argNames, hasVarArgs)
    {
      var partStart := SkipTo(s, c, Word);
      next := SkipFrom(s, partStart, Word);
      var word := s[partStart..next];
      var found := FindRef(word, argNames, At(s, partStart));
      if found.None? {
        PartsFromPlainWord(s, c, cStart, argNames, hasVarArgs, partStart, next);
        nextStart := cStart;
      } else {
        ghost var m := Mark(s[cStart..partStart], found.value);
        ghost var after := SkipWhitespace(s, next);
        PartsFromRefWord(s, c, cStart, argNames, hasVarArgs, partStart, next, found.value, m.0, m.1, after);
        ghost var before := parts;
        AddRef(s[cStart..partStart], found.value, m.0, m.1);
        AppendAssoc3(before, Emit(m.0, m.1), PartsFrom(s, after, after, argNames, hasVarArgs));
        next := SkipWhitespace(s, next);
        nextStart := next;
      }
    }

    /** The reference a word run of the body stands for: the last parameter
        spelled `word`, else `__VA_ARGS__` in a variadic macro. A run that
        starts with a digit (`first`) is never a reference. */
    method FindRef(word: string, argNames: seq<Arg>, first: char) returns (found: Option<Part>)
      requires argc == |argNames|
      requires first == (if word == [] then '\0' else word[0])
      ensures found == WordRef(word, argNames, hasVarArgs)
    {
      found := None;
      if !IsDigit(first) {
        var pos := -1;
        var i := 0;
        while i < argc
          invariant 0 <= i <= argc
          invariant pos == LastMatch(argNames, word, i)
        {
          if argNames[i].text == word {
            pos := i;
          }
          i := i + 1;
        }
        if pos >= 0 {
          found := Some(ArgRef(pos, false, false, false));
        } else if hasVarArgs && word == VaArgs {
          found := Some(ArgRef(-1, true, false, false));
        }
      }
    }

    /** Appends a reference and the literal text `str` before it, less the
        `##` or `#` that marks the reference. */
    method AddRef(str: string, ref: Part, ghost lit: string, ghost marked: Part)
      requires ref.ArgRef? && !ref.stringify && !ref.concat
      requires (lit, marked) == Mark(str, ref)
      modifies this`parts
      ensures parts == old(parts) + Emit(lit, marked)
    {
      var part := ref;
      var text := str;
      var n := |str|;
      if 0 < n {
        if str[n - 1] == '#' {
          if 2 <= n && str[n - 2] == '#' {
            part := part.(concat := true);
            text := str[..n - 2];
          } else {
            part := part.(stringify := true);
            text := str[..n - 1];
          }
        }
        if |text| > 0 {
          parts := parts + [Literal(text)];
        }
      }
      assert (text, part) == Mark(str, ref);
      parts := parts + [part];
    }

    /** `expand()`: the body of a macro without named parameters is its first
        part's text; any other macro is expanded with no arguments. */
    method ExpandNoArgs() returns (r: string)
      requires Valid()
      ensures r == NoArgsExpansion(Current())
    {
      if |parts| == 0 {
        return "";
      }
      if argc == 0 {
        return PartStr(parts[0]);
      }
      r := ExpandArgs([]);
    }

    /** `expand(c, chars)`: expands with the invocation held by the first
        `chars` characters of `c`. */
    method ExpandChars(c: string, chars: nat) returns (r: Result<string, LoadError>)
      requires Valid() && chars <= |c|
      ensures r == TextExpansion(Current(), c[..chars])
    {
      r := ExpandText(c[..chars]);
    }

    /** `expand(s)`: splits `s` as an argument list, keeping whitespace
        flags, and expands with those arguments. */
    method ExpandText(s: string) returns (r: Result<string, LoadError>)
      requires Valid()
      ensures r == TextExpansion(Current(), s)
      ensures r.Failure? <==> ')' !in s
    {
      var split := LoadArgs(s, 0, true);
      assert s[0..] == s;
      SplitArgsFields(s, 0, true);
      if split.Failure? {
        return Failure(split.error);
      }
      var text := ExpandArgs(split.value.0);
      r := Success(text);
    }

    /** `expand(args)`: each part in turn, a literal as is, a reference
        replaced by its argument's text (quoted for `#`, bare for `##`,
        otherwise with the argument's whitespace); a space after every part
        that wrote something, unless it is the last or the next is `##`. */
    method ExpandArgs(args: seq<Arg>) returns (ret: string)
      requires Valid()
      ensures ret == Expansion(parts, argc, args)
    {
      var partCount := |parts|;
      if partCount == 0 {
        return "";
      }
      ghost var whole := Expansion(parts, argc, args);
      ret := "";
      var i := 0;
      while i < partCount
        invariant 0 <= i <= partCount
        invariant ret + Expansion(parts[i..], argc, args) == whole
      {
        var piece := ExpandPart(parts[i], args);
        ExpansionFrom(parts, i, argc, args);
        var sep := if i < partCount - 1 && !IsConcat(parts[i + 1]) && |piece| != 0 then " " else "";
        ghost var rest := Expansion(parts[i + 1..], argc, args);
        AppendAssoc(ret, piece, sep, rest);
        ret := ret + piece + sep;
        i := i + 1;
      }
      assert parts[partCount..] == [];
    }

    /** The text one part contributes to an expansion. */
    method ExpandPart(part: Part, args: seq<Arg>) returns (piece: string)
      requires RefInRange(part, argc, hasVarArgs)
      ensures piece == Piece(part, argc, args)
    {
      if part.Literal? {
        return part.text;
      }
      var inputArgc := |args|;
      var argStr := "";
      if part.variadic {
        argStr := VarArgsText(args, part.concat);
      } else if part.argPos < inputArgc {
        argStr := args[part.argPos].text;
      }
      assert argStr == Substituted(part, argc, args);
      if part.stringify {
        piece := "\"" + argStr + "\"";
      } else if part.concat {
        piece := argStr;
      } else if part.argPos < 0 || inputArgc <= part.argPos {
        piece := argStr;
      } else {
        var arg := args[part.argPos];
        piece := "";
        if arg.hasLeftSpace {
          piece := piece + " ";
        }
        piece := piece + argStr;
        if arg.hasRightSpace {
          piece := piece + " ";
        }
      }
    }

    /** The text `__VA_ARGS__` stands for: the arguments past the named ones,
        joined by commas, each but the first preceded by a space when it has
        whitespace or text. */
    method VarArgsText(args: seq<Arg>, concat: bool) returns (argStr: string)
      ensures argStr == VarJoin(args, argc, concat)
    {
      var inputArgc := |args|;
      ghost var whole := VarJoin(args, argc, concat);
      argStr := "";
      var j := argc;
      while j < inputArgc
        invariant argc <= j && (j <= inputArgc || j == argc)
        invariant argStr + VarJoinFrom(args, argc, j, concat) == whole
        decreases inputArgc - j
      {
        var item := "";
        if argc < j && (HasSpace(args[j]) || |args[j].text| > 0) {
          item := " ";
        }
        item := item + args[j].text;
        assert item == VarText(args, argc, j);
        var comma := "";
        if j < inputArgc - 1 && (j < inputArgc - 2 || !concat || 0 < |args[j + 1].text|) {
          comma := ",";
        }
        ghost var rest := VarJoinFrom(args, argc, j + 1, concat);
        assert VarJoinFrom(args, argc, j, concat) == item + comma + rest;
        AppendAssoc(argStr, item, comma, rest);
        argStr := argStr + item + comma;
        j := j + 1;
      }
    }
  }
}
