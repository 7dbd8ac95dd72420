# macro_t: a verified model of OCCA's preprocessor-macro engine

This project models `macro_t`, the macro object of OCCA's parser sandbox.
A macro is loaded from the text of a `#define` (everything after the
directive) and then expanded against actual arguments.

**Loading.** `load` skips whitespace and reads the name. If a `(` follows
the name, with or without whitespace in between, the macro is
function-like: the parameter list is split at commas up to the first `)`.
A parameter name is the text of its field with leading whitespace dropped
and trailing whitespace kept, so `a ` (with its space) is a different name
from `a`. A name that is exactly `...` is allowed only as the last
parameter, where it is dropped and makes the macro variadic. Because of the
trailing-whitespace rule, `F(... , a)` loads without error and is not
variadic, `F(a, ... )` is not variadic either, and in `ADD(a , b) a + b`
the `a` of the body is never substituted (the parameter is `a `;
`MacroExamples.LateEllipsisLoads`, `MacroExamples.SpacedNameStaysLiteral`
and, for any body, `MacroWords.BodyNeverRefersToSpacedName`). The body
after the `)` is cut into *parts*:

- literal text;
- references to parameters, by index;
- references to `__VA_ARGS__`, with index -1.

A `#` just before a reference marks it for stringification, and a `##`
marks it for pasting. Anything else after the name becomes an object-like
body: one literal holding the rest of the text.

**Expansion.** `expand` walks the parts:

- a literal is written as is;
- a reference writes its argument's text: quoted for `#`, bare for `##`,
  and otherwise with the whitespace the argument was given;
- `__VA_ARGS__` writes the extra arguments joined by commas;
- one space is written after every part that wrote something, unless it is
  the last part or the next one is pasted.

A C preprocessor would give `1+2` for `ADD(a,b) a+b` with `1`, `2`, and
the GNU `, ##__VA_ARGS__` extension would give `printf(msg)` for
`LOG(fmt, ...) printf(fmt, ##__VA_ARGS__)` with `msg` alone. This code
writes a space after every part and keeps the literal comma: it gives
`1 + 2` for the first, `1 +  2` for `ADD(a, b) a + b` (whose literal `+ `
keeps its space, `MacroExamples.ExpandAdd`) and `printf( msg , )` for the
second (`MacroExamples.PastedVarArgsKeepLiteralComma`).

Text is `seq<char>` and a cursor is an index. The end of the text plays the
part of the terminating NUL.

Layout:

- `lex.dfy` (`Lex`): the character classes and the scans the loader uses
  (`skipTo`, `skipFrom`, `skipWhitespace`).
- `macro_types.dfy` (`MacroTypes`): the data model. A part is
  `Literal | ArgRef`, an argument is `Arg` with its two whitespace flags,
  the loaded fields are `Def`, and the fatal errors are `LoadError`.
- `macro_load.dfy` (`MacroLoad`): what a load produces, as functions of the
  text and of the variadic flag the macro had before. It also holds the laws
  of argument splitting and body cutting.
- `macro_expand.dfy` (`MacroExpand`): what an expansion produces, as
  functions of the parts and the arguments, with the laws of separators,
  pasting and variadic joining.
- `macro.dfy` (`MacroClass`): the class `Macro`, whose fields are updated in
  place by loops that follow the member functions step by step. Each method
  is proved to compute the functions above.
- `macro_words.dfy` (`MacroWords`): what the body cutter leaves in its
  literals and which parameters its references can name.
- `macro_props.dfy` (`MacroProps`): laws that tie a load to the expansions
  of what it loaded.
- `macro_examples.dfy` (`MacroExamples`): worked examples.

A fatal `OCCA_ERROR` is modelled as a returned error
(`Fail(MissingCloseParen)` or `Fail(VarArgsNotLast)`). The fields keep what
had been set when the error struck.

## Model

| member | source | states |
|---|---|---|
| MacroClass.Macro.constructor | parser_sandbox/src/macro.cpp:24 | a fresh macro has no name, no parameters, no parts, is not variadic and has both lines at -1 |
| MacroClass.Macro.Clear | parser_sandbox/src/macro.cpp:202-210 | empties the name and the parts, sets argc to 0 and both lines to -1; the variadic flag keeps its old value |
| MacroClass.Macro.Load | parser_sandbox/src/macro.cpp:38-40 | loading a whole string leaves exactly the fields and outcome `LoadSpec` gives for it; lines are -1 and every reference is in range |
| MacroClass.Macro.LoadChars | parser_sandbox/src/macro.cpp:42-74 | loading the first `chars` characters leaves exactly the fields and outcome `LoadSpec` gives for them; the variadic flag is the old one unless the text declares `...`; lines are -1; every reference names a parameter or is a variadic reference of a variadic macro |
| MacroClass.Macro.LoadDefinition | parser_sandbox/src/macro.cpp:51-73 | once a letter or `_` starts the text, the name is read and then either an object-like body or a parameter list and body are loaded, as `LoadSpec` says |
| MacroClass.Macro.LoadParamsAndBody | parser_sandbox/src/macro.cpp:56-73 | after the `(`: fails with MissingCloseParen and argc 0 when no `)` follows; otherwise argc is the parameter count and the rest is loaded, as `LoadFunctionLike` says |
| MacroClass.Macro.LoadParamsBody | parser_sandbox/src/macro.cpp:59-73 | applies the `...` rule and then cuts the body after the `)`, as `LoadSplitNames` says |
| MacroClass.Macro.CheckVarArgs | parser_sandbox/src/macro.cpp:61-70 | succeeds exactly when `...` does not occur before the last parameter. On success a last `...` is removed, argc drops to the remaining count and the macro becomes variadic. On failure argc is the full parameter count and the flag is unchanged |
| MacroClass.Macro.LoadName | parser_sandbox/src/macro.cpp:76-86 | the name is the text from the cursor up to the first whitespace or `(`; the cursor ends after the whitespace that follows |
| MacroClass.Macro.LoadArgs | parser_sandbox/src/macro.cpp:88-121 | the argument-splitting loop computes `SplitArgs`: an error when no `)` follows, otherwise one argument per round and the cursor on the `)` |
| MacroClass.Macro.SetParts | parser_sandbox/src/macro.cpp:123-200 | the body-cutting loop appends exactly `BodyParts` of the body to the parts |
| MacroClass.Macro.CutWord | parser_sandbox/src/macro.cpp:141-196 | one round of the cutting loop moves the cursor strictly forward and keeps "parts so far + parts of the rest" unchanged |
| MacroClass.Macro.FindRef | parser_sandbox/src/macro.cpp:147-167 | the lookup loop returns the reference `WordRef` gives: the last parameter so spelled, else `__VA_ARGS__` in a variadic macro, and never a run that starts with a digit |
| MacroClass.Macro.AddRef | parser_sandbox/src/macro.cpp:169-191 | appends the literal before a reference, less its `##` or `#` marker and only when non-empty, then the marked reference, as `Mark` says |
| MacroClass.Macro.ExpandNoArgs | parser_sandbox/src/macro.cpp:212-221 | `expand()` gives "" for no parts, the first part's text when argc is 0, and otherwise the expansion with no arguments |
| MacroClass.Macro.ExpandChars | parser_sandbox/src/macro.cpp:223-225 | `expand(c, chars)` is `expand` of the first `chars` characters |
| MacroClass.Macro.ExpandText | parser_sandbox/src/macro.cpp:227-232 | `expand(s)` fails exactly when `s` holds no `)`; otherwise it expands the arguments split from `s` with whitespace flags |
| MacroClass.Macro.ExpandArgs | parser_sandbox/src/macro.cpp:234-303 | the expansion loop computes `Expansion(parts, argc, args)` |
| MacroClass.Macro.ExpandPart | parser_sandbox/src/macro.cpp:244-293 | one part's text is the function `Piece`: a literal as is, a reference quoted, bare or with its argument's spaces |
| MacroClass.Macro.VarArgsText | parser_sandbox/src/macro.cpp:251-267 | the variadic loop computes `VarJoin`: the extra arguments with commas and spaces |
| MacroLoad.SplitArgs | parser_sandbox/src/macro.cpp:91-96 | on success the returned cursor rests on a `)` |
| MacroLoad.SplitArgsFields | parser_sandbox/src/macro.cpp:88-121 | splitting fails exactly when no `)` follows the cursor. Otherwise it stops at the first `)`, so nesting is not tracked. It yields one argument per comma-separated field, with leading whitespace dropped, trailing whitespace kept and one optional flag per side. It agrees with an independent comma-splitting definition |
| MacroLoad.SplitOnCommasJoin | parser_sandbox/src/macro.cpp:99-104 | the reference split loses nothing: the fields joined with commas give back the text, and no field holds a comma |
| MacroLoad.FirstArgNoLeftSpace | parser_sandbox/src/macro.cpp:91-111 | with whitespace flags on, the first argument never has its left-space flag, unless the list starts with a comma |
| MacroLoad.LastMatch | parser_sandbox/src/macro.cpp:150-159 | the result is the largest index of a parameter so spelled, or -1 when none is |
| MacroLoad.WordRef | parser_sandbox/src/macro.cpp:147-167 | a word run starting with a digit is no reference. A run spelling a parameter refers to the last such parameter. Otherwise `__VA_ARGS__` in a variadic macro is the variadic reference with index -1, and any other run is no reference |
| MacroLoad.Mark | parser_sandbox/src/macro.cpp:170-184 | a trailing `##` is cut off and marks pasting; otherwise a trailing `#` is cut off and marks stringification. Never both; the cut text plus the marker gives back the literal |
| MacroLoad.BodyPartsOk | parser_sandbox/src/macro.cpp:141-199 | every cut part is a non-empty literal or a reference with 0 <= argPos < argc, or argPos -1 when variadic in a variadic macro; a reference is never both stringified and pasted |
| MacroLoad.BodyPartsSpelling | parser_sandbox/src/macro.cpp:139-199 | cutting loses only whitespace: spelling the parts back (markers and parameter names restored) gives the body up to whitespace |
| MacroLoad.BodyPartsNoBlankAfterRef | parser_sandbox/src/macro.cpp:192-194 | a literal that follows a reference never starts with whitespace |
| MacroLoad.BodyWithoutParams | parser_sandbox/src/macro.cpp:139-199 | with no parameters and no `__VA_ARGS__`, the body is one literal holding the text after leading whitespace, or nothing |
| MacroLoad.LoadNotAName | parser_sandbox/src/macro.cpp:45-50 | text that does not start, after whitespace, with a letter or `_` leaves the macro cleared, with the variadic flag untouched |
| MacroLoad.LoadObjectLike | parser_sandbox/src/macro.cpp:47-54 | a name followed by anything but `(` gives argc 0 and exactly one literal, the rest of the text. The name is non-empty, starts with a letter or `_`, and holds no whitespace or `(`. The text is whitespace, the name, whitespace and that literal |
| MacroLoad.LoadParameters | parser_sandbox/src/macro.cpp:56-70 | with a closed parameter list: the load fails exactly when `...` occurs before the last position. A last `...` gives argc one less than the parameter count and a variadic macro. Otherwise argc is the count and the flag is unchanged |
| MacroLoad.LoadUnclosedParameters | parser_sandbox/src/macro.cpp:56-58 | a function-like load fails with MissingCloseParen exactly when no `)` follows the `(` |
| MacroLoad.LoadedRefsInRange | parser_sandbox/src/macro.cpp:42-74 | after any load, every reference names an existing parameter, or is the variadic reference of a variadic macro |
| MacroExpand.ExpansionAppend | parser_sandbox/src/macro.cpp:243-300 | expanding two part lists one after the other is expanding each, with one space where they meet unless the second starts with a pasted reference or the first ends with an empty piece |
| MacroExpand.ExpansionJoinsPieces | parser_sandbox/src/macro.cpp:295-299 | without pasted parts, and when every part writes something, the expansion is the pieces separated by single spaces |
| MacroExpand.ConcatPastes | parser_sandbox/src/macro.cpp:277-299 | a pasted reference follows what precedes it with no space in between |
| MacroExpand.LiteralsIgnoreArgs | parser_sandbox/src/macro.cpp:247-248 | a body of literals expands the same whatever the arguments |
| MacroExpand.MissingArgument | parser_sandbox/src/macro.cpp:268-281 | a fixed reference past the supplied arguments writes nothing, or `""` when stringified |
| MacroExpand.VarJoinPlain | parser_sandbox/src/macro.cpp:251-267 | without pasting, `__VA_ARGS__` is the extra arguments joined by commas. Each extra argument after the first gets a space before it when it has a whitespace flag or text |
| MacroExpand.VarJoinConcat | parser_sandbox/src/macro.cpp:260-266 | with pasting, the same text, except that the comma before an empty last argument is dropped when there are at least two extra arguments |
| MacroProps.ObjectLikeExpandsVerbatim | parser_sandbox/src/macro.cpp:51-54 | an object-like macro expands to the text after its name, verbatim, for any arguments, and `expand()` gives the same |
| MacroProps.NotANameExpandsToNothing | parser_sandbox/src/macro.cpp:45-50 | after a load of text that is not a definition, every expansion gives "" |
| MacroProps.TextExpansionNeedsCloseParen | parser_sandbox/src/macro.cpp:227-232 | `expand(s)` fails with MissingCloseParen exactly when `s` has no `)`; when it succeeds, `s` has a first `)` |
| MacroProps.LoadKeepsVariadicFlag | parser_sandbox/src/macro.cpp:202-210 | since `clear` keeps the variadic flag, a load's outcome, name and argc do not depend on the old flag, and the new flag is the old one or the text's own |
| MacroProps.NoArgsShortcutSound | parser_sandbox/src/macro.cpp:217-220 | for a loaded macro that is not variadic, the argc-0 shortcut of `expand()` gives what expanding with no arguments gives |
| MacroProps.LoadedWithoutParams | parser_sandbox/src/macro.cpp:42-74 | after any load, a macro with argc 0 that is not variadic has at most one part, and that part is a literal |
| MacroProps.NoArgsShortcutDropsVariadicBody | parser_sandbox/src/macro.cpp:217-220 | for a variadic macro without named parameters, cut as literal, `__VA_ARGS__`, literal, `expand()` gives only the first literal while expanding with no arguments gives both |
| MacroExamples.SplitTwo | parser_sandbox/src/macro.cpp:88-121 | `1, 2)` splits into `1` and `2`, the second with its left-space flag |
| MacroExamples.LoadAdd | parser_sandbox/src/macro.cpp:42-74 | `ADD(a, b) a + b` loads as references to `a` and `b` around the literal `+ ` |
| MacroExamples.ExpandAdd | parser_sandbox/src/macro.cpp:234-303 | that body expands with `1`, `2` to `1 +  2` |
| MacroExamples.LoadStr | parser_sandbox/src/macro.cpp:42-74 | `STR(x) #x` loads as a macro with one parameter whose body is one stringified reference to `x` |
| MacroExamples.StringifyQuotes | parser_sandbox/src/macro.cpp:273-276 | `STR(x) #x` loads as one stringified reference, and with `hello` that body gives `"hello"` |
| MacroExamples.LoadCat | parser_sandbox/src/macro.cpp:42-74 | `CAT(a, b) a##b` loads as a reference to `a` and a pasted reference to `b`, with no literal between them |
| MacroExamples.PasteJoins | parser_sandbox/src/macro.cpp:277-299 | `CAT(a, b) a##b` loads as a reference and a pasted reference, and with `foo`, `bar` that body gives `foobar` |
| MacroExamples.VariadicTrailingComma | parser_sandbox/src/macro.cpp:251-267 | with extra arguments `a` and an empty one, `__VA_ARGS__` is `a,` and, pasted, `a` |
| MacroExamples.LoadLog | parser_sandbox/src/macro.cpp:42-74 | `LOG(fmt, ...) printf(fmt, ##__VA_ARGS__)` loads as a variadic macro with one parameter; the body is `printf(`, `fmt`, the literal `, `, the pasted `__VA_ARGS__` and `)` |
| MacroExamples.PastedVarArgsKeepLiteralComma | parser_sandbox/src/macro.cpp:168-300 | `LOG(fmt, ...) printf(fmt, ##__VA_ARGS__)` loads with the literal comma kept before the pasted `__VA_ARGS__`, and with only `msg` that body gives `printf( msg , )` |
| MacroExamples.LateEllipsisLoads | parser_sandbox/src/macro.cpp:61-70 | `F(... , a) a` loads without error as a macro that is not variadic, with two parameters and a body that refers to `a`: the first name is `... ` with its space, which is not `...` |
| MacroExamples.SpacedNameStaysLiteral | parser_sandbox/src/macro.cpp:102-108 | `ADD(a , b) a + b` loads with parameters `a ` and `b`; the body's `a` is no reference and stays in the literal `a + `, and with `1`, `2` the macro gives `a +  2` |
| MacroWords.BodyPartsLiteralsPlain | parser_sandbox/src/macro.cpp:141-199 | no literal part of a cut body holds a whole word run that spells a parameter, or `__VA_ARGS__` in a variadic macro: every such run became a reference |
| MacroWords.BodyNeverRefersToSpacedName | parser_sandbox/src/macro.cpp:147-167 | no reference of a cut body names a parameter whose name holds a character other than a letter, digit or `_`, such as the trailing space of `a ` |

## Left out

- `include/occaParserMagic.hpp` is not part of this model. It only declares the dependency-analysis types; their implementation is not part of this model either.
- `examples/cpp/20_hip_interop/main.cpp` is not part of this model. It is GPU runtime calls and console output.
- The `lex::` helpers (`occa/tools/lex.hpp`) are not part of this model. They are specified by their scanning behaviour in `Lex`. The whitespace set is assumed to be space, tab, CR, LF, VT and FF.
- `macro.hpp` is not part of this model, and with it the field defaults and the `macroInfo` bit layout. The constructor assumes empty fields, a clear variadic flag and lines -1. The bit flags are explicit booleans, and `hasSpace` is read as "left or right space".
- The three constructors that call `load` are not modelled separately; they are `Load` on a fresh object.
- `OCCA_ERROR` aborts in the source; here it is a returned error, and the rest of the load is skipped.
- Embedded NUL characters: the `const char *` scans would stop at one, while the model's text ends only at its length.
- Integer widths (`int` lengths and indices) are unbounded.
- `definedLine` and `undefinedLine` are only reset to -1, as the source does. No define/undefine table exists in the modelled code.
- The lazily built `static` delimiter strings are constant character classes (`Charset`).
- A reference with a negative `argPos` that is not variadic would index out of bounds in the source. The loader never produces one (`LoadedRefsInRange`), so the expanding methods require `Valid()`.
- The source's `clear` does not reset the variadic flag, so a macro reloaded after a variadic one stays variadic. The model keeps that behaviour (`MacroProps.LoadKeepsVariadicFlag`).
- The `argc == 0` shortcut of `expand()` drops the rest of a variadic body. The model keeps that behaviour too (`MacroProps.NoArgsShortcutDropsVariadicBody`).
