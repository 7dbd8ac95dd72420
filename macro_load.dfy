/** What loading a `#define` text produces: the argument splitter, the
    handling of `...`, the cutting of the body into parts, and the whole load,
    each as a function of the input text. The methods of `MacroClass.Macro`
    are proved to compute exactly these. */
module MacroLoad {
  import opened Lex
  import opened MacroTypes

  // ---------------------------------------------------------------------
  // Argument lists
  // ---------------------------------------------------------------------

  /** The splitting loop, from cursor `p` up to the ')' at `e`: each round
      skips one ',', skips whitespace, and takes the text up to the next ','
      or ')' as one argument. */
  function FieldsFrom(s: string, p: nat, e: nat, keepWhitespace: bool): (r: seq<Arg>)
    requires p <= e < |s| && s[e] == ')'
    requires forall k :: p <= k < e ==> s[k] != ')'
    decreases e - p
  {
    if p == e then []
    else
      var start := if s[p] == ',' then p + 1 else p;
      var argStart := SkipWhitespace(s, start);
      var argEnd := SkipTo(s, argStart, FieldEnd);
      SkipWhitespaceBounded(s, start, e);
      SkipToBounded(s, argStart, e, FieldEnd);
      var arg := Arg(s[argStart..argEnd],
                     keepWhitespace && IsWhitespace(At(s, start)),
                     keepWhitespace && IsWhitespace(At(s, argEnd - 1)));
      [arg] + FieldsFrom(s, argEnd, e, keepWhitespace)
  }

  /** One round of the splitting loop, from a cursor `p` before the ')' at
      `e`: the argument it makes and the cursor it stops at. */
  lemma FieldsFromUnfold(s: string, p: nat, e: nat, keepWhitespace: bool, start: nat, argStart: nat, argEnd: nat)
    requires p < e < |s| && s[e] == ')'
    requires forall k :: p <= k < e ==> s[k] != ')'
    requires start == (if s[p] == ',' then p + 1 else p)
    requires argStart == SkipWhitespace(s, start) && argEnd == SkipTo(s, argStart, FieldEnd)
    ensures start <= argStart <= argEnd <= e
    ensures FieldsFrom(s, p, e, keepWhitespace)
         == [Arg(s[argStart..argEnd],
                 keepWhitespace && IsWhitespace(At(s, start)),
                 keepWhitespace && IsWhitespace(At(s, argEnd - 1)))]
            + FieldsFrom(s, argEnd, e, keepWhitespace)
  {
    SkipWhitespaceBounded(s, start, e);
    SkipToBounded(s, argStart, e, FieldEnd);
  }

  /** Splits the argument list that starts at cursor `c`, up to the first ')'.
      Yields the arguments and the cursor left on that ')'. */
  function SplitArgs(s: string, c: nat, keepWhitespace: bool): (r: Result<(seq<Arg>, nat), LoadError>)
    requires c <= |s|
    ensures r.Success? ==> r.value.1 < |s| && s[r.value.1] == ')'
  {
    var argsStart := SkipWhitespace(s, c);
    var argsEnd := SkipTo(s, argsStart, CloseParen);
    if At(s, argsEnd) != ')' then Failure(MissingCloseParen)
    else
      SkipToPasses(s, argsStart, CloseParen);
      Success((FieldsFrom(s, argsStart, argsEnd, keepWhitespace), SkipWhitespace(s, argsEnd)))
  }

  // A reference definition of the split: cut at every comma.

  /** The comma-separated fields of `t`; there is always at least one. */
  function SplitOnCommas(t: string): (r: seq<string>)
    ensures |r| >= 1
  {
    if t == [] then [[]]
    else
      var rest := SplitOnCommas(t[1..]);
      if t[0] == ',' then [[]] + rest else [[t[0]] + rest[0]] + rest[1..]
  }

  /** Splitting on commas loses nothing: joining the fields with commas gives
      the text back, and no field holds a comma. */
  lemma {:induction false} SplitOnCommasJoin(t: string)
    ensures Join(SplitOnCommas(t), ",") == t
    ensures forall i :: 0 <= i < |SplitOnCommas(t)| ==> ',' !in SplitOnCommas(t)[i]
  {
    if t != [] {
      var rest := SplitOnCommas(t[1..]);
      SplitOnCommasJoin(t[1..]);
      if t[0] == ',' {
        assert SplitOnCommas(t) == [[]] + rest;
        assert ([[]] + rest)[1..] == rest;
        assert t == [','] + t[1..];
      } else {
        var r := SplitOnCommas(t);
        assert r == [[t[0]] + rest[0]] + rest[1..];
        if |rest| == 1 {
          assert t == [t[0]] + rest[0];
        } else {
          assert r[1..] == rest[1..];
          assert Join(rest, ",") == rest[0] + "," + Join(rest[1..], ",");
          assert t == [t[0]] + (rest[0] + "," + Join(rest[1..], ","));
        }
        forall i | 0 <= i < |r| ensures ',' !in r[i] {
          if i > 0 {
            assert r[i] == rest[i];
          }
        }
      }
    }
  }

  lemma {:induction false} SplitOnCommasNone(t: string)
    requires ',' !in t
    ensures SplitOnCommas(t) == [t]
  {
    if t != [] {
      SplitOnCommasNone(t[1..]);
      assert [t[0]] + t[1..] == t;
    }
  }

  lemma {:induction false} SplitOnCommasFirst(f: string, u: string)
    requires ',' !in f
    ensures SplitOnCommas(f + [','] + u) == [f] + SplitOnCommas(u)
  {
    var t := f + [','] + u;
    if f == [] {
      assert t[1..] == u;
    } else {
      assert t[1..] == f[1..] + [','] + u;
      SplitOnCommasFirst(f[1..], u);
      assert [f[0]] + f[1..] == f;
    }
  }

  /** `f` without its leading whitespace. */
  function TrimLeft(f: string): (r: string)
  {
    if f != [] && IsWhitespace(f[0]) then TrimLeft(f[1..]) else f
  }

  /** The argument the splitter makes of the raw field `f`: leading whitespace
      dropped, trailing whitespace kept, and (when asked for) one flag per side
      telling whether the field began or ended with whitespace. */
  function FieldArg(f: string, keepWhitespace: bool): (r: Arg)
  {
    Arg(TrimLeft(f),
        keepWhitespace && f != [] && IsWhitespace(f[0]),
        keepWhitespace && f != [] && IsWhitespace(f[|f| - 1]))
  }

  function FieldArgs(fields: seq<string>, keepWhitespace: bool): (r: seq<Arg>)
    ensures |r| == |fields|
  {
    if fields == [] then [] else [FieldArg(fields[0], keepWhitespace)] + FieldArgs(fields[1..], keepWhitespace)
  }

  function DropLeadingComma(t: string): (r: string)
  {
    if t != [] && t[0] == ',' then t[1..] else t
  }

  lemma {:induction false} TrimLeftSkip(s: string, i: nat, j: nat)
    requires i <= j <= |s| && SkipWhitespace(s, i) <= j
    ensures TrimLeft(s[i..j]) == s[SkipWhitespace(s, i)..j]
    decreases j - i
  {
    if i < j && IsWhitespace(s[i]) {
      assert s[i..j][1..] == s[i + 1..j];
      assert SkipWhitespace(s, i) == SkipWhitespace(s, i + 1);
      TrimLeftSkip(s, i + 1, j);
    }
  }

  /** Where one round of the splitting loop ends: at the next ',' or at the
      ')' at `e`, with no comma in between. */
  lemma FieldEndBounds(s: string, start: nat, e: nat)
    requires start <= e < |s| && s[e] == ')'
    ensures var fieldEnd := SkipTo(s, start, FieldEnd);
      && fieldEnd <= e
      && ',' !in s[start..fieldEnd]
      && SkipTo(s, SkipWhitespace(s, start), FieldEnd) == fieldEnd
  {
    var fieldEnd := SkipTo(s, start, FieldEnd);
    SkipToBounded(s, start, e, FieldEnd);
    var argStart := SkipWhitespace(s, start);
    if fieldEnd < |s| {
      SkipWhitespaceBounded(s, start, fieldEnd);
    }
    SkipToRestart(s, start, argStart, FieldEnd);
    assert ',' !in s[start..fieldEnd] by {
      SkipToPasses(s, start, FieldEnd);
      forall k | start <= k < fieldEnd ensures s[k] != ',' {
        assert !InCharset(s[k], FieldEnd);
      }
    }
  }

  /** The argument one round makes is the raw field made into an argument. */
  lemma FieldArgOfRound(s: string, start: nat, argEnd: nat, keepWhitespace: bool)
    requires start <= argEnd <= |s| && SkipWhitespace(s, start) <= argEnd
    requires start == argEnd ==> 0 < start < |s| && s[start - 1] == ',' && !IsWhitespace(s[start])
    ensures Arg(s[SkipWhitespace(s, start)..argEnd],
                keepWhitespace && IsWhitespace(At(s, start)),
                keepWhitespace && IsWhitespace(At(s, argEnd - 1)))
         == FieldArg(s[start..argEnd], keepWhitespace)
  {
    var f := s[start..argEnd];
    TrimLeftSkip(s, start, argEnd);
    assert IsWhitespace(At(s, start)) == (f != [] && IsWhitespace(f[0]));
    assert IsWhitespace(At(s, argEnd - 1)) == (f != [] && IsWhitespace(f[|f| - 1]));
  }

  /** One round of the splitting loop takes the raw field from the cursor
      (after one comma it may rest on) to the next ',' or ')'. */
  lemma FieldsFromFirst(s: string, p: nat, e: nat, keepWhitespace: bool)
    requires p < e < |s| && s[e] == ')'
    requires forall k :: p <= k < e ==> s[k] != ')'
    ensures var start := if s[p] == ',' then p + 1 else p;
      var fieldEnd := SkipTo(s, start, FieldEnd);
      && p < fieldEnd <= e
      && ',' !in s[start..fieldEnd]
      && (fieldEnd == e || s[fieldEnd] == ',')
      && FieldsFrom(s, p, e, keepWhitespace)
         == [FieldArg(s[start..fieldEnd], keepWhitespace)] + FieldsFrom(s, fieldEnd, e, keepWhitespace)
  {
    var start := if s[p] == ',' then p + 1 else p;
    var fieldEnd := SkipTo(s, start, FieldEnd);
    FieldEndBounds(s, start, e);
    assert fieldEnd < e ==> s[fieldEnd] != ')';
    FieldArgOfRound(s, start, fieldEnd, keepWhitespace);
  }

  /** The splitting loop cuts exactly at the commas: from cursor `p`, it
      yields one argument per comma-separated field of the text up to the
      ')', after dropping one comma that the cursor may rest on. */
  lemma {:induction false} FieldsFromSplit(s: string, p: nat, e: nat, keepWhitespace: bool)
    requires p < e < |s| && s[e] == ')'
    requires forall k :: p <= k < e ==> s[k] != ')'
    ensures FieldsFrom(s, p, e, keepWhitespace)
         == FieldArgs(SplitOnCommas(DropLeadingComma(s[p..e])), keepWhitespace)
    decreases e - p
  {
    var start := if s[p] == ',' then p + 1 else p;
    var fieldEnd := SkipTo(s, start, FieldEnd);
    FieldsFromFirst(s, p, e, keepWhitespace);
    DropCommaSlice(s, p, e);
    if fieldEnd == e {
      SplitOnCommasNone(s[start..e]);
    } else {
      CommaSlices(s, start, fieldEnd, e);
      FieldsFromSplit(s, fieldEnd, e, keepWhitespace);
      FieldsOfCommaStep(s[start..fieldEnd], s[fieldEnd + 1..e], keepWhitespace);
    }
  }

  lemma DropCommaSlice(s: string, p: nat, e: nat)
    requires p < e <= |s|
    ensures DropLeadingComma(s[p..e]) == if s[p] == ',' then s[p + 1..e] else s[p..e]
  {
  }

  lemma CommaSlices(s: string, start: nat, m: nat, e: nat)
    requires start <= m < e <= |s| && s[m] == ','
    ensures s[start..e] == s[start..m] + [','] + s[m + 1..e]
    ensures DropLeadingComma(s[m..e]) == s[m + 1..e]
  {
  }

  lemma FieldsOfCommaStep(f: string, u: string, keepWhitespace: bool)
    requires ',' !in f
    ensures FieldArgs(SplitOnCommas(f + [','] + u), keepWhitespace)
         == [FieldArg(f, keepWhitespace)] + FieldArgs(SplitOnCommas(u), keepWhitespace)
  {
    SplitOnCommasFirst(f, u);
    FieldArgsCons(f, SplitOnCommas(u), keepWhitespace);
  }

  lemma FieldArgsCons(f: string, fields: seq<string>, keepWhitespace: bool)
    ensures FieldArgs([f] + fields, keepWhitespace) == [FieldArg(f, keepWhitespace)] + FieldArgs(fields, keepWhitespace)
  {
    assert ([f] + fields)[1..] == fields;
  }

  /** What the splitter promises: it fails exactly when no ')' follows the
      cursor; otherwise it stops at the first ')' (nested parentheses are not
      tracked) and yields one argument per comma-separated field before it. */
  lemma SplitArgsFields(s: string, c: nat, keepWhitespace: bool)
    requires c <= |s|
    ensures SplitArgs(s, c, keepWhitespace).Failure? <==> ')' !in s[c..]
    ensures SplitArgs(s, c, keepWhitespace).Success? ==>
      var (args, e) := SplitArgs(s, c, keepWhitespace).value;
      var a := SkipWhitespace(s, c);
      && a <= e && ')' !in s[c..e]
      && args == (if a == e then [] else FieldArgs(SplitOnCommas(DropLeadingComma(s[a..e])), keepWhitespace))
  {
    var a := SkipWhitespace(s, c);
    var e := SkipTo(s, a, CloseParen);
    if ')' in s[c..] {
      var k :| c <= k < |s| && s[k] == ')';
      SkipWhitespaceBounded(s, c, k);
      SkipToBounded(s, a, k, CloseParen);
    }
    if At(s, e) == ')' {
      assert ')' !in s[c..e] by {
        SkipFromPasses(s, c, Blank);
        SkipToPasses(s, a, CloseParen);
        forall k | c <= k < e ensures s[k] != ')' {
          if k < a {
            assert IsWhitespace(s[k]);
          } else {
            assert !InCharset(s[k], CloseParen);
          }
        }
      }
      if a < e {
        FieldsFromSplit(s, a, e, keepWhitespace);
      }
    }
  }

  /** With whitespace flags on, the first argument is never marked as
      preceded by whitespace: leading whitespace is skipped before the loop.
      (This holds unless the list starts with a comma, which the loop skips
      before looking at whitespace.) */
  lemma FirstArgNoLeftSpace(s: string, c: nat)
    requires c <= |s| && SplitArgs(s, c, true).Success?
    requires At(s, SkipWhitespace(s, c)) != ','
    ensures var args := SplitArgs(s, c, true).value.0;
      args != [] ==> !args[0].hasLeftSpace
  {
  }

  // ---------------------------------------------------------------------
  // Parameter lists
  // ---------------------------------------------------------------------

  /** The check and removal of "...": it may only be the last parameter; if it
      is, it is dropped and the macro becomes variadic. */
  function StripVarArgs(names: seq<Arg>): (r: Result<(seq<Arg>, bool), LoadError>)
  {
    if EllipsisBeforeLast(names) then Failure(VarArgsNotLast)
    else if names != [] && names[|names| - 1].text == Ellipsis then Success((names[..|names| - 1], true))
    else Success((names, false))
  }

  /** Whether "..." is one of the parameters before the last one. */
  predicate EllipsisBeforeLast(names: seq<Arg>)
  {
    |names| > 1 && (names[0].text == Ellipsis || EllipsisBeforeLast(names[1..]))
  }

  /** "..." is before the last parameter exactly when some parameter other
      than the last one is "...". */
  lemma {:induction false} EllipsisBeforeLastAt(names: seq<Arg>)
    ensures !EllipsisBeforeLast(names) <==> forall k :: 0 <= k < |names| - 1 ==> names[k].text != Ellipsis
  {
    if |names| > 1 {
      EllipsisBeforeLastAt(names[1..]);
      assert forall k :: 0 < k < |names| - 1 ==> names[k] == names[1..][k - 1];
    }
  }

  // ---------------------------------------------------------------------
  // Macro bodies
  // ---------------------------------------------------------------------

  /** The largest index below `n` of a parameter spelled `word`, or -1. */
  function LastMatch(names: seq<Arg>, word: string, n: nat): (k: int)
    requires n <= |names|
    ensures -1 <= k < n
    ensures k >= 0 ==> names[k].text == word && forall j :: k < j < n ==> names[j].text != word
    ensures k < 0 ==> forall j :: 0 <= j < n ==> names[j].text != word
    decreases n
  {
    if n == 0 then -1
    else if names[n - 1].text == word then n - 1
    else LastMatch(names, word, n - 1)
  }

  /** The reference a word run of the body stands for, if any. */
  function WordRef(word: string, names: seq<Arg>, hasVarArgs: bool): (r: Option<Part>)
    ensures r.Some? ==> r.value.ArgRef? && !r.value.stringify && !r.value.concat
    ensures r.Some? && !r.value.variadic ==>
      && 0 <= r.value.argPos < |names| && names[r.value.argPos].text == word
      && forall j :: r.value.argPos < j < |names| ==> names[j].text != word
    ensures r.Some? && r.value.variadic ==>
      && r.value.argPos == -1 && hasVarArgs && word == VaArgs
      && forall j :: 0 <= j < |names| ==> names[j].text != word
    ensures r.None? <==>
      || (word != [] && IsDigit(word[0]))
      || ((forall j :: 0 <= j < |names| ==> names[j].text != word) && !(hasVarArgs && word == VaArgs))
  {
    if word != [] && IsDigit(word[0]) then None
    else
      var k := LastMatch(names, word, |names|);
      if k >= 0 then Some(ArgRef(k, false, false, false))
      else if hasVarArgs && word == VaArgs then Some(ArgRef(-1, true, false, false))
      else None
  }

  /** The operator a reference was marked with, as spelled in the body. */
  function Marker(p: Part): (r: string)
  {
    if IsConcat(p) then "##" else if p.ArgRef? && p.stringify then "#" else ""
  }

  /** Looks at the literal text `str` that precedes a reference: a trailing
      `##` is cut off and marks the reference for pasting, otherwise a single
      trailing `#` is cut off and marks it for stringification. */
  function Mark(str: string, ref: Part): (r: (string, Part))
    requires ref.ArgRef? && !ref.stringify && !ref.concat
    ensures r.1.ArgRef? && r.1.argPos == ref.argPos && r.1.variadic == ref.variadic
    ensures !(r.1.stringify && r.1.concat)
    ensures r.0 + Marker(r.1) == str
    ensures r.1.concat <==> |str| >= 2 && str[|str| - 2..] == "##"
    ensures r.1.stringify <==> |str| >= 1 && str[|str| - 1] == '#' && !(|str| >= 2 && str[|str| - 2] == '#')
  {
    if str != [] && str[|str| - 1] == '#' then
      if 2 <= |str| && str[|str| - 2] == '#' then (str[..|str| - 2], ref.(concat := true))
      else (str[..|str| - 1], ref.(stringify := true))
    else (str, ref)
  }

  /** The body-cutting loop from cursor `c`, with the literal text pending
      since `cStart`. Word runs (`[A-Za-z0-9_]+`) are looked up; text between
      references is gathered into literals; whitespace after a reference is
      skipped. */
  function PartsFrom(s: string, c: nat, cStart: nat, names: seq<Arg>, hasVarArgs: bool): (r: seq<Part>)
    requires cStart <= c <= |s|
    decreases |s| - c
  {
    if c == |s| then
      (if cStart < c then [Literal(s[cStart..])] else [])
    else
      var partStart := SkipTo(s, c, Word);
      var partEnd := SkipFrom(s, partStart, Word);
      match WordRef(s[partStart..partEnd], names, hasVarArgs)
      case None => PartsFrom(s, partEnd, cStart, names, hasVarArgs)
      case Some(ref) =>
        var (lit, marked) := Mark(s[cStart..partStart], ref);
        var next := SkipWhitespace(s, partEnd);
        Emit(lit, marked) + PartsFrom(s, next, next, names, hasVarArgs)
  }

  /** What one reference adds: the pending literal text, if any, then the
      reference. */
  function Emit(lit: string, marked: Part): (r: seq<Part>)
  {
    (if lit == [] then [] else [Literal(lit)]) + [marked]
  }

  /** One round of the body cutter over a word run that is not a reference. */
  lemma PartsFromPlainWord(s: string, c: nat, cStart: nat, names: seq<Arg>, hasVarArgs: bool,
                           partStart: nat, partEnd: nat)
    requires cStart <= c < |s|
    requires partStart == SkipTo(s, c, Word) && partEnd == SkipFrom(s, partStart, Word)
    requires WordRef(s[partStart..partEnd], names, hasVarArgs).None?
    ensures PartsFrom(s, c, cStart, names, hasVarArgs) == PartsFrom(s, partEnd, cStart, names, hasVarArgs)
  {
  }

  /** One round of the body cutter over a word run that is a reference. */
  lemma PartsFromRefWord(s: string, c: nat, cStart: nat, names: seq<Arg>, hasVarArgs: bool,
                         partStart: nat, partEnd: nat, ref: Part, lit: string, marked: Part, next: nat)
    requires cStart <= c < |s|
    requires partStart == SkipTo(s, c, Word) && partEnd == SkipFrom(s, partStart, Word)
    requires WordRef(s[partStart..partEnd], names, hasVarArgs) == Some(ref)
    requires (lit, marked) == Mark(s[cStart..partStart], ref) && next == SkipWhitespace(s, partEnd)
    ensures PartsFrom(s, c, cStart, names, hasVarArgs) == Emit(lit, marked) + PartsFrom(s, next, next, names, hasVarArgs)
  {
  }

  /** The parts of the body that starts at cursor `c`. */
  function BodyParts(s: string, c: nat, names: seq<Arg>, hasVarArgs: bool): (r: seq<Part>)
    requires c <= |s|
  {
    var w := SkipWhitespace(s, c);
    PartsFrom(s, w, w, names, hasVarArgs)
  }

  /** A part as the body cutter can produce it. */
  predicate BodyPartOk(p: Part, argc: nat, hasVarArgs: bool)
  {
    match p
    case Literal(t) => t != []
    case ArgRef(pos, variadic, stringify, concat) =>
      && !(stringify && concat)
      && (if variadic then pos == -1 && hasVarArgs else 0 <= pos < argc)
  }

  lemma {:induction false} PartsFromOk(s: string, c: nat, cStart: nat, names: seq<Arg>, hasVarArgs: bool)
    requires cStart <= c <= |s|
    ensures forall i :: 0 <= i < |PartsFrom(s, c, cStart, names, hasVarArgs)| ==>
      BodyPartOk(PartsFrom(s, c, cStart, names, hasVarArgs)[i], |names|, hasVarArgs)
    decreases |s| - c
  {
    if c < |s| {
      var partStart := SkipTo(s, c, Word);
      var partEnd := SkipFrom(s, partStart, Word);
      var found := WordRef(s[partStart..partEnd], names, hasVarArgs);
      if found.None? {
        PartsFromPlainWord(s, c, cStart, names, hasVarArgs, partStart, partEnd);
        PartsFromOk(s, partEnd, cStart, names, hasVarArgs);
      } else {
        var m := Mark(s[cStart..partStart], found.value);
        var next := SkipWhitespace(s, partEnd);
        PartsFromRefWord(s, c, cStart, names, hasVarArgs, partStart, partEnd, found.value, m.0, m.1, next);
        PartsFromOk(s, next, next, names, hasVarArgs);
        EmitOkAppend(m.0, m.1, PartsFrom(s, next, next, names, hasVarArgs), |names|, hasVarArgs);
      }
    }
  }

  lemma EmitOkAppend(lit: string, marked: Part, rest: seq<Part>, argc: nat, hasVarArgs: bool)
    requires BodyPartOk(marked, argc, hasVarArgs)
    requires forall i :: 0 <= i < |rest| ==> BodyPartOk(rest[i], argc, hasVarArgs)
    ensures forall i :: 0 <= i < |Emit(lit, marked) + rest| ==> BodyPartOk((Emit(lit, marked) + rest)[i], argc, hasVarArgs)
  {
    var head := Emit(lit, marked);
    forall i | 0 <= i < |head + rest| ensures BodyPartOk((head + rest)[i], argc, hasVarArgs) {
      if i >= |head| {
        assert (head + rest)[i] == rest[i - |head|];
      }
    }
  }

  /** Every reference the body cutter makes names a parameter by its index,
      0 <= argPos < argc, or is the variadic `__VA_ARGS__` with argPos -1 (only
      for a variadic macro); a reference is never both stringified and pasted;
      and no literal part is empty. */
  lemma BodyPartsOk(s: string, c: nat, names: seq<Arg>, hasVarArgs: bool)
    requires c <= |s|
    ensures forall i :: 0 <= i < |BodyParts(s, c, names, hasVarArgs)| ==>
      BodyPartOk(BodyParts(s, c, names, hasVarArgs)[i], |names|, hasVarArgs)
  {
    var w := SkipWhitespace(s, c);
    PartsFromOk(s, w, w, names, hasVarArgs);
  }

  /** With no parameters and no `__VA_ARGS__`, the whole body after leading
      whitespace stays one literal (none when the body is empty). */
  lemma {:induction false} PartsFromWithoutParams(s: string, c: nat, cStart: nat)
    requires cStart <= c <= |s|
    ensures PartsFrom(s, c, cStart, [], false) == if cStart < |s| then [Literal(s[cStart..])] else []
    decreases |s| - c
  {
    if c < |s| {
      var partStart := SkipTo(s, c, Word);
      var partEnd := SkipFrom(s, partStart, Word);
      assert WordRef(s[partStart..partEnd], [], false).None?;
      assert PartsFrom(s, c, cStart, [], false) == PartsFrom(s, partEnd, cStart, [], false);
      PartsFromWithoutParams(s, partEnd, cStart);
    }
  }

  lemma BodyWithoutParams(s: string, c: nat)
    requires c <= |s|
    ensures var w := SkipWhitespace(s, c);
      BodyParts(s, c, [], false) == if w < |s| then [Literal(s[w..])] else []
  {
    var w := SkipWhitespace(s, c);
    PartsFromWithoutParams(s, w, w);
  }

  /** The body text as the parts spell it: literals verbatim, a reference as
      its operator followed by the parameter name (or `__VA_ARGS__`). */
  function Spelling(p: Part, names: seq<Arg>): (r: string)
  {
    match p
    case Literal(t) => t
    case ArgRef(pos, variadic, _, _) =>
      Marker(p) + (if variadic then VaArgs else if 0 <= pos < |names| then names[pos].text else "")
  }

  function Unparse(parts: seq<Part>, names: seq<Arg>): (r: string)
  {
    if parts == [] then "" else Spelling(parts[0], names) + Unparse(parts[1..], names)
  }

  /** `t` with every whitespace character removed. */
  function NoBlanks(t: string): (r: string)
  {
    if t == [] then "" else (if IsWhitespace(t[0]) then "" else [t[0]]) + NoBlanks(t[1..])
  }

  lemma {:induction false} NoBlanksAppend(a: string, b: string)
    ensures NoBlanks(a + b) == NoBlanks(a) + NoBlanks(b)
  {
    if a == [] {
      assert a + b == b;
    } else {
      assert (a + b)[0] == a[0];
      assert (a + b)[1..] == a[1..] + b;
      NoBlanksAppend(a[1..], b);
    }
  }

  lemma {:induction false} NoBlanksOfBlanks(s: string, i: nat, j: nat)
    requires i <= j <= |s|
    requires forall k :: i <= k < j ==> IsWhitespace(s[k])
    ensures NoBlanks(s[i..j]) == ""
    decreases j - i
  {
    if i < j {
      assert s[i..j][1..] == s[i + 1..j];
      NoBlanksOfBlanks(s, i + 1, j);
    }
  }

  lemma {:induction false} UnparseAppend(ps: seq<Part>, qs: seq<Part>, names: seq<Arg>)
    ensures Unparse(ps + qs, names) == Unparse(ps, names) + Unparse(qs, names)
  {
    if ps == [] {
      assert ps + qs == qs;
    } else {
      assert (ps + qs)[0] == ps[0];
      assert (ps + qs)[1..] == ps[1..] + qs;
      UnparseAppend(ps[1..], qs, names);
    }
  }

  /** The literal and reference made of the text before a referenced word
      spell that text followed by the word. */
  lemma MarkedRefSpelling(str: string, word: string, names: seq<Arg>, hasVarArgs: bool,
                           ref: Part, lit: string, marked: Part)
    requires WordRef(word, names, hasVarArgs) == Some(ref)
    requires (lit, marked) == Mark(str, ref)
    ensures Unparse(Emit(lit, marked), names) == str + word
  {
    MarkedSpelling(str, word, names, hasVarArgs, ref, marked);
    UnparseHead(lit, marked, names);
    AppendAssoc3(lit, Marker(marked), word);
  }

  /** A marked reference spells its operator, then the word it stands for. */
  lemma MarkedSpelling(str: string, word: string, names: seq<Arg>, hasVarArgs: bool, ref: Part, marked: Part)
    requires WordRef(word, names, hasVarArgs) == Some(ref)
    requires marked == Mark(str, ref).1
    ensures Spelling(marked, names) == Marker(marked) + word
  {
    RefSpelling(marked, names, word);
  }

  lemma RefSpelling(m: Part, names: seq<Arg>, word: string)
    requires m.ArgRef?
    requires m.variadic ==> word == VaArgs
    requires !m.variadic ==> 0 <= m.argPos < |names| && names[m.argPos].text == word
    ensures Spelling(m, names) == Marker(m) + word
  {
  }

  lemma UnparseHead(lit: string, marked: Part, names: seq<Arg>)
    ensures Unparse(Emit(lit, marked), names) == lit + Spelling(marked, names)
  {
    assert Unparse([marked], names) == Spelling(marked, names) + Unparse([], names);
    if lit != [] {
      UnparseAppend([Literal(lit)], [marked], names);
      assert Unparse([Literal(lit)], names) == lit + Unparse([], names);
    }
  }

  /** Whitespace between two cursors adds nothing once blanks are removed. */
  lemma NoBlanksAcrossGap(s: string, cStart: nat, partStart: nat, partEnd: nat, next: nat)
    requires cStart <= partStart <= partEnd <= next <= |s|
    requires forall k :: partEnd <= k < next ==> IsWhitespace(s[k])
    ensures NoBlanks(s[cStart..]) == NoBlanks(s[cStart..partStart] + s[partStart..partEnd]) + NoBlanks(s[next..])
  {
    assert s[cStart..] == (s[cStart..partStart] + s[partStart..partEnd]) + (s[partEnd..next] + s[next..]);
    NoBlanksOfBlanks(s, partEnd, next);
    NoBlanksAppend(s[cStart..partStart] + s[partStart..partEnd], s[partEnd..next] + s[next..]);
    NoBlanksAppend(s[partEnd..next], s[next..]);
  }

  lemma {:induction false} PartsFromSpelling(s: string, c: nat, cStart: nat, names: seq<Arg>, hasVarArgs: bool)
    requires cStart <= c <= |s|
    ensures NoBlanks(Unparse(PartsFrom(s, c, cStart, names, hasVarArgs), names)) == NoBlanks(s[cStart..])
    decreases |s| - c
  {
    if c < |s| {
      var partStart := SkipTo(s, c, Word);
      var partEnd := SkipFrom(s, partStart, Word);
      var word := s[partStart..partEnd];
      match WordRef(word, names, hasVarArgs)
      case None =>
        PartsFromPlainWord(s, c, cStart, names, hasVarArgs, partStart, partEnd);
        PartsFromSpelling(s, partEnd, cStart, names, hasVarArgs);
      case Some(ref) =>
        var (lit, marked) := Mark(s[cStart..partStart], ref);
        var next := SkipWhitespace(s, partEnd);
        var rest := PartsFrom(s, next, next, names, hasVarArgs);
        PartsFromRefWord(s, c, cStart, names, hasVarArgs, partStart, partEnd, ref, lit, marked, next);
        MarkedRefSpelling(s[cStart..partStart], word, names, hasVarArgs, ref, lit, marked);
        UnparseAppend(Emit(lit, marked), rest, names);
        PartsFromSpelling(s, next, next, names, hasVarArgs);
        SkipFromPasses(s, partEnd, Blank);
        NoBlanksAcrossGap(s, cStart, partStart, partEnd, next);
        NoBlanksAppend(Unparse(Emit(lit, marked), names), Unparse(rest, names));
    } else if cStart < c {
      assert Unparse([Literal(s[cStart..])], names) == s[cStart..];
    }
  }

  /** Cutting the body loses no text but whitespace: spelling the parts back
      (with `#`/`##` and parameter names restored) gives the body text up to
      whitespace. */
  lemma BodyPartsSpelling(s: string, c: nat, names: seq<Arg>, hasVarArgs: bool)
    requires c <= |s|
    ensures NoBlanks(Unparse(BodyParts(s, c, names, hasVarArgs), names)) == NoBlanks(s[c..])
  {
    var w := SkipWhitespace(s, c);
    PartsFromSpelling(s, w, w, names, hasVarArgs);
    SkipFromPasses(s, c, Blank);
    NoBlanksOfBlanks(s, c, w);
    NoBlanksSplit(s, c, w);
  }

  lemma NoBlanksSplit(s: string, i: nat, j: nat)
    requires i <= j <= |s|
    ensures NoBlanks(s[i..]) == NoBlanks(s[i..j]) + NoBlanks(s[j..])
  {
    assert s[i..] == s[i..j] + s[j..];
    NoBlanksAppend(s[i..j], s[j..]);
  }

  lemma {:induction false} PartsFromFirstLiteral(s: string, c: nat, cStart: nat, names: seq<Arg>, hasVarArgs: bool)
    requires cStart <= c <= |s|
    ensures var ps := PartsFrom(s, c, cStart, names, hasVarArgs);
      ps != [] && ps[0].Literal? ==> cStart < |s| && ps[0].text != [] && ps[0].text[0] == s[cStart]
    decreases |s| - c
  {
    if c < |s| {
      var partStart := SkipTo(s, c, Word);
      var partEnd := SkipFrom(s, partStart, Word);
      match WordRef(s[partStart..partEnd], names, hasVarArgs)
      case None =>
        assert PartsFrom(s, c, cStart, names, hasVarArgs) == PartsFrom(s, partEnd, cStart, names, hasVarArgs);
        PartsFromFirstLiteral(s, partEnd, cStart, names, hasVarArgs);
      case Some(ref) =>
        var (lit, marked) := Mark(s[cStart..partStart], ref);
        if lit != [] {
          assert lit[0] == (lit + Marker(marked))[0];
        }
    }
  }

  /** No literal that follows a reference starts with whitespace. */
  predicate NoBlankAfterRef(ps: seq<Part>)
  {
    forall i :: 0 <= i < |ps| - 1 && ps[i].ArgRef? && ps[i + 1].Literal? ==>
      ps[i + 1].text != [] && !IsWhitespace(ps[i + 1].text[0])
  }

  lemma NoBlankAfterRefAppend(head: seq<Part>, rest: seq<Part>)
    requires NoBlankAfterRef(head) && NoBlankAfterRef(rest)
    requires head != [] && rest != [] && head[|head| - 1].ArgRef? && rest[0].Literal? ==>
      rest[0].text != [] && !IsWhitespace(rest[0].text[0])
    ensures NoBlankAfterRef(head + rest)
  {
    var ps := head + rest;
    forall i | 0 <= i < |ps| - 1 && ps[i].ArgRef? && ps[i + 1].Literal?
      ensures ps[i + 1].text != [] && !IsWhitespace(ps[i + 1].text[0])
    {
      if i == |head| - 1 {
        assert ps[i + 1] == rest[0];
      } else if i >= |head| {
        assert ps[i] == rest[i - |head|] && ps[i + 1] == rest[i - |head| + 1];
      }
    }
  }

  lemma {:induction false} PartsFromBlankAfterRef(s: string, c: nat, cStart: nat, names: seq<Arg>, hasVarArgs: bool)
    requires cStart <= c <= |s|
    ensures NoBlankAfterRef(PartsFrom(s, c, cStart, names, hasVarArgs))
    decreases |s| - c
  {
    if c < |s| {
      var partStart := SkipTo(s, c, Word);
      var partEnd := SkipFrom(s, partStart, Word);
      match WordRef(s[partStart..partEnd], names, hasVarArgs)
      case None =>
        assert PartsFrom(s, c, cStart, names, hasVarArgs) == PartsFrom(s, partEnd, cStart, names, hasVarArgs);
        PartsFromBlankAfterRef(s, partEnd, cStart, names, hasVarArgs);
      case Some(ref) =>
        var (lit, marked) := Mark(s[cStart..partStart], ref);
        var next := SkipWhitespace(s, partEnd);
        var head := (if lit == [] then [] else [Literal(lit)]) + [marked];
        var rest := PartsFrom(s, next, next, names, hasVarArgs);
        assert PartsFrom(s, c, cStart, names, hasVarArgs) == head + rest;
        PartsFromBlankAfterRef(s, next, next, names, hasVarArgs);
        PartsFromFirstLiteral(s, next, next, names, hasVarArgs);
        assert NoBlankAfterRef(head);
        NoBlankAfterRefAppend(head, rest);
    }
  }

  /** Whitespace right after a reference is skipped: a literal part that
      follows a reference never starts with whitespace. */
  lemma BodyPartsNoBlankAfterRef(s: string, c: nat, names: seq<Arg>, hasVarArgs: bool)
    requires c <= |s|
    ensures NoBlankAfterRef(BodyParts(s, c, names, hasVarArgs))
  {
    var w := SkipWhitespace(s, c);
    assert BodyParts(s, c, names, hasVarArgs) == PartsFrom(s, w, w, names, hasVarArgs);
    PartsFromBlankAfterRef(s, w, w, names, hasVarArgs);
    PartsFromOk(s, w, w, names, hasVarArgs);
  }

  // ---------------------------------------------------------------------
  // The whole load
  // ---------------------------------------------------------------------

  predicate IsIdentStart(c: char)
  {
    IsAlpha(c) || c == '_'
  }

  /** Where the name starts, where it stops, and where the text after it
      (and after any whitespace) begins. */
  function NameStart(text: string): (r: nat)
  {
    SkipWhitespace(text, 0)
  }

  function NameStop(text: string): (r: nat)
    ensures NameStart(text) <= r <= |text|
  {
    SkipTo(text, NameStart(text), NameEnd)
  }

  function AfterName(text: string): (r: nat)
    ensures NameStop(text) <= r <= |text|
  {
    SkipWhitespace(text, NameStop(text))
  }

  /** The fields a load leaves behind, with the fatal error it hit, if any.
      After a fatal error the fields hold what had been set by then.
      `hadVarArgs` is the variadic flag before the load, which a load never
      resets. */
  function LoadSpec(text: string, hadVarArgs: bool): (r: (Def, Outcome<LoadError>))
  {
    var c := NameStart(text);
    if !IsIdentStart(At(text, c)) then (Def("", 0, hadVarArgs, []), Pass)
    else
      var name := text[c..NameStop(text)];
      var c1 := AfterName(text);
      if At(text, c1) != '(' then (Def(name, 0, hadVarArgs, [Literal(text[c1..])]), Pass)
      else LoadFunctionLike(text, name, c1 + 1, hadVarArgs)
  }

  /** The rest of a load once the name and its '(' are read: the parameter
      list from cursor `c`, the "..." rule, then the body after the ')'. */
  function LoadFunctionLike(text: string, name: string, c: nat, hadVarArgs: bool): (r: (Def, Outcome<LoadError>))
    requires c <= |text|
  {
    match SplitArgs(text, c, false)
    case Failure(err) => (Def(name, 0, hadVarArgs, []), Fail(err))
    case Success((names, c2)) => LoadSplitNames(text, name, names, c2, hadVarArgs)
  }

  /** The part of a function-like load after the parameter names are split. */
  function LoadSplitNames(text: string, name: string, names: seq<Arg>, c2: nat, hadVarArgs: bool): (r: (Def, Outcome<LoadError>))
    requires c2 < |text|
  {
    match StripVarArgs(names)
    case Failure(err) => (Def(name, |names|, hadVarArgs, []), Fail(err))
    case Success((params, variadic)) =>
      var hasVarArgs := hadVarArgs || variadic;
      (Def(name, |params|, hasVarArgs, BodyParts(text, c2 + 1, params, hasVarArgs)), Pass)
  }

  /** A parameter list that passes the "..." rule yields its body. */
  lemma LoadSplitNamesPass(text: string, name: string, names: seq<Arg>, c2: nat, hadVarArgs: bool,
                           params: seq<Arg>, hasVarArgs: bool)
    requires c2 < |text|
    requires StripVarArgs(names).Success? && params == StripVarArgs(names).value.0
    requires hasVarArgs == (hadVarArgs || StripVarArgs(names).value.1)
    ensures LoadSplitNames(text, name, names, c2, hadVarArgs)
         == (Def(name, |params|, hasVarArgs, BodyParts(text, c2 + 1, params, hasVarArgs)), Pass)
  {
  }

  predicate Blanks(t: string)
  {
    forall k :: 0 <= k < |t| ==> IsWhitespace(t[k])
  }

  /** Text that does not start (after whitespace) with a letter or `_` is not
      a macro: the load leaves the macro cleared, variadic flag untouched. */
  lemma LoadNotAName(text: string, hadVarArgs: bool)
    requires !IsIdentStart(At(text, NameStart(text)))
    ensures LoadSpec(text, hadVarArgs) == (Def("", 0, hadVarArgs, []), Pass)
  {
  }

  /** A name followed, after optional whitespace, by anything but `(` gives an
      object-like macro: no parameters and one literal holding the rest of the
      text. The text is whitespace, the name (no whitespace or `(` in it),
      whitespace, then that literal. */
  lemma LoadObjectLike(text: string, hadVarArgs: bool)
    requires IsIdentStart(At(text, NameStart(text)))
    requires At(text, AfterName(text)) != '('
    ensures var (d, status) := LoadSpec(text, hadVarArgs);
      && status == Pass && d.argc == 0 && d.hasVarArgs == hadVarArgs
      && |d.parts| == 1 && d.parts[0].Literal?
      && d.name != [] && IsIdentStart(d.name[0])
      && (forall k :: 0 <= k < |d.name| ==> !IsWhitespace(d.name[k]) && d.name[k] != '(')
      && Blanks(text[..NameStart(text)]) && Blanks(text[NameStop(text)..AfterName(text)])
      && text == text[..NameStart(text)] + d.name + text[NameStop(text)..AfterName(text)] + d.parts[0].text
      && (d.parts[0].text == [] || (!IsWhitespace(d.parts[0].text[0]) && d.parts[0].text[0] != '('))
  {
    var c, e, c1 := NameStart(text), NameStop(text), AfterName(text);
    SkipFromPasses(text, 0, Blank);
    SkipToPasses(text, c, NameEnd);
    SkipFromPasses(text, e, Blank);
    assert text == text[..c] + text[c..e] + text[e..c1] + text[c1..];
    forall k | 0 <= k < e - c ensures !IsWhitespace(text[c..e][k]) && text[c..e][k] != '(' {
      assert !InCharset(text[c + k], NameEnd);
    }
  }

  /** For a function-like definition whose parameter list is closed: "..."
      before the last position is fatal; as the last parameter it is removed,
      argc is the parameter count minus one and the macro becomes variadic;
      otherwise argc is the parameter count. */
  lemma LoadParameters(text: string, hadVarArgs: bool)
    requires IsIdentStart(At(text, NameStart(text)))
    requires At(text, AfterName(text)) == '('
    requires SplitArgs(text, AfterName(text) + 1, false).Success?
    ensures var names := SplitArgs(text, AfterName(text) + 1, false).value.0;
      var (d, status) := LoadSpec(text, hadVarArgs);
      && (status.Fail? <==> exists k :: 0 <= k < |names| - 1 && names[k].text == Ellipsis)
      && (status.Fail? ==> status.error == VarArgsNotLast && d.argc == |names| && d.parts == [])
      && (status.Pass? && names != [] && names[|names| - 1].text == Ellipsis ==>
            d.argc == |names| - 1 && d.hasVarArgs)
      && (status.Pass? && !(names != [] && names[|names| - 1].text == Ellipsis) ==>
            d.argc == |names| && d.hasVarArgs == hadVarArgs)
  {
    var name := text[NameStart(text)..NameStop(text)];
    LoadSpecFunctionLike(text, hadVarArgs, name, AfterName(text));
    EllipsisBeforeLastAt(SplitArgs(text, AfterName(text) + 1, false).value.0);
  }

  /** A function-like definition whose parameter list has no ')' is fatal. */
  lemma LoadUnclosedParameters(text: string, hadVarArgs: bool)
    requires IsIdentStart(At(text, NameStart(text)))
    requires At(text, AfterName(text)) == '('
    ensures LoadSpec(text, hadVarArgs).1 == Fail(MissingCloseParen) <==> ')' !in text[AfterName(text) + 1..]
  {
    var c := AfterName(text) + 1;
    var name := text[NameStart(text)..NameStop(text)];
    assert LoadSpec(text, hadVarArgs) == LoadFunctionLike(text, name, c, hadVarArgs);
    SplitArgsFields(text, c, false);
    assert LoadFunctionLike(text, name, c, hadVarArgs).1 == Fail(MissingCloseParen)
       <==> SplitArgs(text, c, false).Failure?;
  }

  /** A reference names an existing parameter (0 <= argPos < argc), or is
      variadic with argPos -1 in a variadic macro. */
  predicate RefInRange(p: Part, argc: nat, hasVarArgs: bool)
  {
    p.ArgRef? ==> if p.variadic then p.argPos == -1 && hasVarArgs else 0 <= p.argPos < argc
  }

  /** Every reference of the body of `d` is in range. */
  predicate RefsInRange(d: Def)
  {
    forall i :: 0 <= i < |d.parts| ==> RefInRange(d.parts[i], d.argc, d.hasVarArgs)
  }

  /** After any load, every reference is in range. */
  lemma LoadedRefsInRange(text: string, hadVarArgs: bool)
    ensures RefsInRange(LoadSpec(text, hadVarArgs).0)
  {
    var c := NameStart(text);
    var c1 := AfterName(text);
    if !IsIdentStart(At(text, c)) {
      LoadNotAName(text, hadVarArgs);
    } else if At(text, c1) != '(' {
      LoadSpecObjectLike(text, hadVarArgs, text[c..NameStop(text)], c1);
    } else {
      var name := text[c..NameStop(text)];
      LoadSpecFunctionLike(text, hadVarArgs, name, c1);
      FunctionLikeRefsInRange(text, name, c1 + 1, hadVarArgs);
    }
  }

  /** The load of an object-like definition, unfolded. */
  lemma LoadSpecObjectLike(text: string, hadVarArgs: bool, name: string, c1: nat)
    requires IsIdentStart(At(text, NameStart(text)))
    requires c1 == AfterName(text) && At(text, c1) != '('
    requires name == text[NameStart(text)..NameStop(text)]
    ensures LoadSpec(text, hadVarArgs) == (Def(name, 0, hadVarArgs, [Literal(text[c1..])]), Pass)
  {
  }

  /** The load of a function-like definition, unfolded up to its '('. */
  lemma LoadSpecFunctionLike(text: string, hadVarArgs: bool, name: string, c1: nat)
    requires IsIdentStart(At(text, NameStart(text)))
    requires c1 == AfterName(text) && At(text, c1) == '('
    requires name == text[NameStart(text)..NameStop(text)]
    ensures c1 + 1 <= |text|
    ensures LoadSpec(text, hadVarArgs) == LoadFunctionLike(text, name, c1 + 1, hadVarArgs)
  {
  }

  lemma FunctionLikeRefsInRange(text: string, name: string, c: nat, hadVarArgs: bool)
    requires c <= |text|
    ensures RefsInRange(LoadFunctionLike(text, name, c, hadVarArgs).0)
  {
    var split := SplitArgs(text, c, false);
    if split.Success? {
      SplitNamesRefsInRange(text, name, split.value.0, split.value.1, hadVarArgs);
    }
  }

  lemma SplitNamesRefsInRange(text: string, name: string, names: seq<Arg>, c2: nat, hadVarArgs: bool)
    requires c2 < |text|
    ensures RefsInRange(LoadSplitNames(text, name, names, c2, hadVarArgs).0)
  {
    var strip := StripVarArgs(names);
    if strip.Success? {
      BodyPartsOk(text, c2 + 1, strip.value.0, hadVarArgs || strip.value.1);
    }
  }
}
