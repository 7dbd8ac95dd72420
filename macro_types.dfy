/** The values the macro engine works on. */
module MacroTypes {

  datatype Option<+T> = None | Some(value: T)

  datatype Result<+T, +E> = Success(value: T) | Failure(error: E)

  datatype Outcome<+E> = Pass | Fail(error: E)

  /** The two fatal conditions the loader reports. */
  datatype LoadError =
    | MissingCloseParen   // no ')' follows an argument list
    | VarArgsNotLast      // "..." is not the last parameter

  /** One piece of a macro body: literal text, or a reference to an argument.
      A fixed reference has `argPos` >= 0; a variadic one stands for
      `__VA_ARGS__` and has `argPos == -1`. */
  datatype Part =
    | Literal(text: string)
    | ArgRef(argPos: int, variadic: bool, stringify: bool, concat: bool)

  /** An argument of an invocation (or a parameter name of a definition),
      with whitespace flags recorded by the argument splitter. */
  datatype Arg = Arg(text: string, hasLeftSpace: bool, hasRightSpace: bool)

  /** The observable fields of a loaded macro. */
  datatype Def = Def(name: string, argc: nat, hasVarArgs: bool, parts: seq<Part>)

  const VaArgs: string := "__VA_ARGS__"

  const Ellipsis: string := "..."

  predicate IsConcat(p: Part)
  {
    p.ArgRef? && p.concat
  }

  /** The `str` member of a part: a reference carries no text. */
  function PartStr(p: Part): (r: string)
  {
    if p.Literal? then p.text else ""
  }

  /** Either of the two whitespace flags. */
  predicate HasSpace(a: Arg)
  {
    a.hasLeftSpace || a.hasRightSpace
  }

  /** The items separated by `sep`. */
  function Join(items: seq<string>, sep: string): (r: string)
  {
    if |items| == 0 then ""
    else if |items| == 1 then items[0]
    else items[0] + sep + Join(items[1..], sep)
  }

  /** Regrouping a sequence built by appending in steps. */
  lemma AppendAssoc3<T>(a: seq<T>, b: seq<T>, c: seq<T>)
    ensures a + b + c == a + (b + c)
  {
  }

  lemma AppendAssoc<T>(a: seq<T>, b: seq<T>, c: seq<T>, d: seq<T>)
    ensures a + b + c + d == a + (b + c + d)
  {
  }
}
