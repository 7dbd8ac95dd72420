/** What expanding a loaded macro produces, as functions of its fields and
    of the actual arguments, with the laws that describe the result. The
    expanding methods of `MacroClass.Macro` are proved to compute these. */
module MacroExpand {
  import opened MacroTypes
  import opened MacroLoad

  // ---------------------------------------------------------------------
  // Substituted text
  // ---------------------------------------------------------------------

  /** The text of the actual argument at `pos`; a position past the given
      arguments yields the empty text. */
  function ArgText(args: seq<Arg>, pos: int): (r: string)
  {
    if 0 <= pos < |args| then args[pos].text else ""
  }

  /** Whether the comma after variadic argument `j` is written: between
      arguments, except that under `##` the comma before an empty last
      argument is dropped. */
  predicate VarComma(args: seq<Arg>, j: nat, concat: bool)
  {
    j < |args| - 1 && (j < |args| - 2 || !concat || args[j + 1].text != [])
  }

  /** Variadic argument `j`: a space before it when it is not the first one
      and it has a whitespace flag or text, then its text. */
  function VarText(args: seq<Arg>, argc: nat, j: nat): (r: string)
    requires j < |args|
  {
    (if argc < j && (HasSpace(args[j]) || args[j].text != []) then " " else "") + args[j].text
  }

  /** The `__VA_ARGS__` text from variadic argument `j` on. */
  function VarJoinFrom(args: seq<Arg>, argc: nat, j: nat, concat: bool): (r: string)
    decreases |args| - j
  {
    if j >= |args| then ""
    else VarText(args, argc, j) + (if VarComma(args, j, concat) then "," else "")
         + VarJoinFrom(args, argc, j + 1, concat)
  }

  /** The text `__VA_ARGS__` stands for: the arguments past the `argc` named
      ones. */
  function VarJoin(args: seq<Arg>, argc: nat, concat: bool): (r: string)
  {
    VarJoinFrom(args, argc, argc, concat)
  }

  /** The text a reference substitutes, before `#`, `##` and spacing. */
  function Substituted(p: Part, argc: nat, args: seq<Arg>): (r: string)
    requires p.ArgRef?
  {
    if p.variadic then VarJoin(args, argc, p.concat) else ArgText(args, p.argPos)
  }

  /** What one part contributes: a literal as is; a reference's text quoted
      (`#`), bare (`##`), or with the whitespace its argument was given. */
  function Piece(p: Part, argc: nat, args: seq<Arg>): (r: string)
  {
    match p
    case Literal(t) => t
    case ArgRef(pos, _, stringify, concat) =>
      var t := Substituted(p, argc, args);
      if stringify then "\"" + t + "\""
      else if concat then t
      else if pos < 0 || |args| <= pos then t
      else (if args[pos].hasLeftSpace then " " else "") + t + (if args[pos].hasRightSpace then " " else "")
  }

  /** A space is written after a part that contributed text, unless it is
      the last part or the next one is marked `##`. */
  function Expansion(parts: seq<Part>, argc: nat, args: seq<Arg>): (r: string)
    decreases |parts|
  {
    if parts == [] then ""
    else
      var piece := Piece(parts[0], argc, args);
      piece + (if |parts| > 1 && !IsConcat(parts[1]) && piece != [] then " " else "")
      + Expansion(parts[1..], argc, args)
  }

  /** `expand()`: no parts give the empty text; a macro without named
      parameters gives the `str` of its first part; any other macro is
      expanded with no arguments. */
  function NoArgsExpansion(d: Def): (r: string)
  {
    if d.parts == [] then ""
    else if d.argc == 0 then PartStr(d.parts[0])
    else Expansion(d.parts, d.argc, [])
  }

  /** `expand(s)`: the invocation text is split as an argument list (whose
      ')' must be present), keeping whitespace flags, then expanded. */
  function TextExpansion(d: Def, s: string): (r: Result<string, LoadError>)
  {
    match SplitArgs(s, 0, true)
    case Failure(err) => Failure(err)
    case Success((args, _)) => Success(Expansion(d.parts, d.argc, args))
  }

  // ---------------------------------------------------------------------
  // Laws of the expansion
  // ---------------------------------------------------------------------

  /** The space written where two part lists meet. */
  function Glue(ps: seq<Part>, qs: seq<Part>, argc: nat, args: seq<Arg>): (r: string)
  {
    if ps != [] && qs != [] && !IsConcat(qs[0]) && Piece(ps[|ps| - 1], argc, args) != [] then " " else ""
  }

  /** Expanding a concatenation of part lists expands each list, with one
      space where they meet unless the second starts with a `##` reference or
      the first ends with a part that contributed nothing. */
  lemma {:induction false} ExpansionAppend(ps: seq<Part>, qs: seq<Part>, argc: nat, args: seq<Arg>)
    ensures Expansion(ps + qs, argc, args)
         == Expansion(ps, argc, args) + Glue(ps, qs, argc, args) + Expansion(qs, argc, args)
    decreases |ps|
  {
    if ps == [] {
      assert ps + qs == qs;
    } else if |ps| == 1 {
      ExpansionAppendOne(ps, qs, argc, args);
    } else {
      ExpansionAppend(ps[1..], qs, argc, args);
      ExpansionAppendStep(ps, qs, argc, args);
    }
  }

  /** `ExpansionAppend` for a single part in front. */
  lemma ExpansionAppendOne(ps: seq<Part>, qs: seq<Part>, argc: nat, args: seq<Arg>)
    requires |ps| == 1
    ensures Expansion(ps + qs, argc, args)
         == Expansion(ps, argc, args) + Glue(ps, qs, argc, args) + Expansion(qs, argc, args)
  {
    var both := ps + qs;
    assert both[0] == ps[0];
    assert both[1..] == qs;
    ExpansionHead(ps, argc, args);
    ExpansionHead(both, argc, args);
  }

  /** The inductive step of `ExpansionAppend`: the law for `ps[1..]` gives
      the law for `ps`. */
  lemma ExpansionAppendStep(ps: seq<Part>, qs: seq<Part>, argc: nat, args: seq<Arg>)
    requires |ps| > 1
    requires Expansion(ps[1..] + qs, argc, args)
         == Expansion(ps[1..], argc, args) + Glue(ps[1..], qs, argc, args) + Expansion(qs, argc, args)
    ensures Expansion(ps + qs, argc, args)
         == Expansion(ps, argc, args) + Glue(ps, qs, argc, args) + Expansion(qs, argc, args)
  {
    var piece := Piece(ps[0], argc, args);
    var tail := ps[1..];
    var both := ps + qs;
    var sep := if !IsConcat(ps[1]) && piece != [] then " " else "";
    assert Expansion(both, argc, args) == piece + sep + Expansion(tail + qs, argc, args) by {
      assert both[0] == ps[0];
      assert both[1..] == tail + qs;
      assert both[1] == ps[1];
      ExpansionHead(both, argc, args);
    }
    assert Expansion(ps, argc, args) == piece + sep + Expansion(tail, argc, args) by {
      ExpansionHead(ps, argc, args);
    }
    assert Glue(ps, qs, argc, args) == Glue(tail, qs, argc, args) by {
      assert tail[|tail| - 1] == ps[|ps| - 1];
    }
    Regroup(Expansion(both, argc, args), Expansion(ps, argc, args), Expansion(tail + qs, argc, args),
            piece, sep, Expansion(tail, argc, args), Glue(tail, qs, argc, args), Expansion(qs, argc, args));
  }

  lemma Regroup(whole: string, left: string, right: string, a: string, b: string, c: string, d: string, e: string)
    requires whole == a + b + right && right == c + d + e && left == a + b + c
    ensures whole == left + d + e
  {
  }

  /** The first step of the expansion: the first part's piece and the space
      after it. */
  lemma ExpansionHead(ps: seq<Part>, argc: nat, args: seq<Arg>)
    requires ps != []
    ensures var piece := Piece(ps[0], argc, args);
      Expansion(ps, argc, args)
      == piece + (if |ps| > 1 && !IsConcat(ps[1]) && piece != [] then " " else "") + Expansion(ps[1..], argc, args)
  {
  }

  /** The expansion from part `i` on: part `i`'s piece, its separator, then
      the rest. */
  lemma ExpansionFrom(parts: seq<Part>, i: nat, argc: nat, args: seq<Arg>)
    requires i < |parts|
    ensures var piece := Piece(parts[i], argc, args);
      Expansion(parts[i..], argc, args)
      == piece + (if i + 1 < |parts| && !IsConcat(parts[i + 1]) && piece != [] then " " else "")
         + Expansion(parts[i + 1..], argc, args)
  {
    assert parts[i..][0] == parts[i];
    assert parts[i..][1..] == parts[i + 1..];
    if i + 1 < |parts| {
      assert parts[i..][1] == parts[i + 1];
    }
  }

  /** The pieces of every part, in order. */
  function Pieces(parts: seq<Part>, argc: nat, args: seq<Arg>): (r: seq<string>)
    ensures |r| == |parts|
    ensures forall i :: 0 <= i < |parts| ==> r[i] == Piece(parts[i], argc, args)
  {
    if parts == [] then [] else [Piece(parts[0], argc, args)] + Pieces(parts[1..], argc, args)
  }

  /** Without `##` references, and when every part contributes text, the
      expansion is the pieces separated by single spaces. */
  lemma {:induction false} ExpansionJoinsPieces(parts: seq<Part>, argc: nat, args: seq<Arg>)
    requires forall i :: 0 <= i < |parts| ==> !IsConcat(parts[i]) && Piece(parts[i], argc, args) != []
    ensures Expansion(parts, argc, args) == Join(Pieces(parts, argc, args), " ")
    decreases |parts|
  {
    if parts != [] {
      ExpansionJoinsPieces(parts[1..], argc, args);
      var ps := Pieces(parts, argc, args);
      assert ps[1..] == Pieces(parts[1..], argc, args);
      if |parts| > 1 {
        assert !IsConcat(parts[1]);
      }
    }
  }

  /** A `##` reference is pasted to what precedes it: no space is written
      between the two. */
  lemma ConcatPastes(ps: seq<Part>, q: Part, qs: seq<Part>, argc: nat, args: seq<Arg>)
    requires IsConcat(q)
    ensures Expansion(ps + [q] + qs, argc, args)
         == Expansion(ps, argc, args) + Piece(q, argc, args)
            + Glue([q], qs, argc, args) + Expansion(qs, argc, args)
  {
    var right := [q] + qs;
    AppendAssoc3(ps, [q], qs);
    ExpansionAppend(ps, right, argc, args);
    GlueBeforeConcat(ps, q, qs, argc, args);
    ExpansionAppend([q], qs, argc, args);
    ExpansionSingle(q, argc, args);
    PasteStep(Expansion(ps + right, argc, args), Expansion(ps, argc, args), Glue(ps, right, argc, args),
              Expansion(right, argc, args), Piece(q, argc, args), Glue([q], qs, argc, args), Expansion(qs, argc, args));
  }

  lemma GlueBeforeConcat(ps: seq<Part>, q: Part, qs: seq<Part>, argc: nat, args: seq<Arg>)
    requires IsConcat(q)
    ensures Glue(ps, [q] + qs, argc, args) == ""
  {
    assert ([q] + qs)[0] == q;
  }

  lemma ExpansionSingle(p: Part, argc: nat, args: seq<Arg>)
    ensures Expansion([p], argc, args) == Piece(p, argc, args)
  {
    assert Expansion([p], argc, args) == Piece(p, argc, args) + "" + Expansion([], argc, args);
  }

  /** The texts on both sides of a paste, regrouped. */
  lemma PasteStep(whole: string, left: string, glue: string, right: string, piece: string, after: string, rest: string)
    requires glue == "" && whole == left + glue + right && right == piece + after + rest
    ensures whole == left + piece + after + rest
  {
    AppendAssoc(left, piece, after, rest);
  }

  /** A body made only of literals expands the same whatever the arguments. */
  lemma {:induction false} LiteralsIgnoreArgs(parts: seq<Part>, argc: nat, args: seq<Arg>)
    requires forall i :: 0 <= i < |parts| ==> parts[i].Literal?
    ensures Expansion(parts, argc, args) == Expansion(parts, 0, [])
    decreases |parts|
  {
    if parts != [] {
      LiteralsIgnoreArgs(parts[1..], argc, args);
      if |parts| > 1 {
        assert parts[1].Literal?;
      }
    }
  }

  /** A fixed reference past the given arguments contributes nothing, or
      `""` when it is stringified. */
  lemma MissingArgument(p: Part, argc: nat, args: seq<Arg>)
    requires p.ArgRef? && !p.variadic && |args| <= p.argPos
    ensures Piece(p, argc, args) == if p.stringify then "\"\"" else ""
  {
  }

  /** The text of variadic argument `j` together with its comma, were every
      one written. */
  function VarItems(args: seq<Arg>, argc: nat, j: nat): (r: seq<string>)
    requires j <= |args|
    ensures |r| == |args| - j
    decreases |args| - j
  {
    if j == |args| then [] else [VarText(args, argc, j)] + VarItems(args, argc, j + 1)
  }

  /** Without `##`, `__VA_ARGS__` stands for the extra arguments separated by
      commas. */
  lemma {:induction false} VarJoinFromPlain(args: seq<Arg>, argc: nat, j: nat)
    requires j <= |args|
    ensures VarJoinFrom(args, argc, j, false) == Join(VarItems(args, argc, j), ",")
    decreases |args| - j
  {
    if j < |args| {
      VarJoinFromPlain(args, argc, j + 1);
      var items := VarItems(args, argc, j);
      assert items[1..] == VarItems(args, argc, j + 1);
    }
  }

  lemma VarJoinPlain(args: seq<Arg>, argc: nat)
    ensures VarJoin(args, argc, false)
         == if argc < |args| then Join(VarItems(args, argc, argc), ",") else ""
  {
    if argc <= |args| {
      VarJoinFromPlain(args, argc, argc);
    }
  }

  /** With `##__VA_ARGS__`, the text is the one without `##` except when
      there are at least two extra arguments and the last one is empty: then
      the comma before that last argument is dropped. */
  lemma {:induction false} VarJoinFromConcat(args: seq<Arg>, argc: nat, j: nat)
    requires j <= |args|
    ensures var items := VarItems(args, argc, j);
      VarJoinFrom(args, argc, j, true)
      == if |items| >= 2 && args[|args| - 1].text == [] then ElidedJoin(items) else Join(items, ",")
    decreases |args| - j
  {
    if j < |args| {
      VarJoinFromConcat(args, argc, j + 1);
      if |args| - j >= 2 && args[|args| - 1].text == [] {
        if |args| - j == 2 {
          ElideLastComma(args, argc, j);
        } else {
          ElideLastCommaStep(args, argc, j);
        }
      } else {
        KeepCommasStep(args, argc, j);
      }
    }
  }

  /** The items joined by commas, except that no comma precedes the last. */
  function ElidedJoin(items: seq<string>): (r: string)
    requires items != []
  {
    Join(items[..|items| - 1], ",") + items[|items| - 1]
  }

  /** The first variadic argument and its comma, then the rest. */
  lemma VarJoinFromHead(args: seq<Arg>, argc: nat, j: nat, concat: bool)
    requires j < |args|
    ensures VarItems(args, argc, j) == [VarText(args, argc, j)] + VarItems(args, argc, j + 1)
    ensures VarJoinFrom(args, argc, j, concat)
         == VarText(args, argc, j) + (if VarComma(args, j, concat) then "," else "") + VarJoinFrom(args, argc, j + 1, concat)
  {
  }

  lemma ElideLastComma(args: seq<Arg>, argc: nat, j: nat)
    requires j + 2 == |args| && args[|args| - 1].text == []
    ensures VarJoinFrom(args, argc, j, true) == ElidedJoin(VarItems(args, argc, j))
  {
    var items := VarItems(args, argc, j);
    VarJoinFromHead(args, argc, j, true);
    VarJoinFromHead(args, argc, j + 1, true);
    assert items[..|items| - 1] == [items[0]];
  }

  lemma ElideLastCommaStep(args: seq<Arg>, argc: nat, j: nat)
    requires j + 3 <= |args| && args[|args| - 1].text == []
    requires VarJoinFrom(args, argc, j + 1, true) == ElidedJoin(VarItems(args, argc, j + 1))
    ensures VarJoinFrom(args, argc, j, true) == ElidedJoin(VarItems(args, argc, j))
  {
    VarJoinFromHead(args, argc, j, true);
    VarJoinFromComma(args, argc, j);
    ElidedCons(VarItems(args, argc, j), VarText(args, argc, j), VarItems(args, argc, j + 1),
               VarJoinFrom(args, argc, j, true), VarJoinFrom(args, argc, j + 1, true));
  }

  /** Putting one more item, with its comma, in front of an elided join. */
  lemma ElidedCons(items: seq<string>, first: string, rest: seq<string>, whole: string, restWhole: string)
    requires items == [first] + rest && |rest| >= 2
    requires restWhole == ElidedJoin(rest) && whole == first + "," + restWhole
    ensures whole == ElidedJoin(items)
  {
    var init := rest[..|rest| - 1];
    assert items[..|items| - 1] == [first] + init;
    JoinCons(first, init, ",");
    CommaStep(whole, restWhole, first, Join(items[..|items| - 1], ","), Join(init, ","), items[|items| - 1]);
  }

  /** Under `##`, a variadic argument followed by at least two more keeps
      its comma. */
  lemma VarJoinFromComma(args: seq<Arg>, argc: nat, j: nat)
    requires j + 3 <= |args|
    ensures VarJoinFrom(args, argc, j, true) == VarText(args, argc, j) + "," + VarJoinFrom(args, argc, j + 1, true)
  {
    assert VarComma(args, j, true);
  }

  /** The text after one item and its comma, regrouped. */
  lemma CommaStep(whole: string, rest: string, first: string, joined: string, restJoined: string, last: string)
    requires whole == first + "," + rest && rest == restJoined + last
    requires joined == first + "," + restJoined
    ensures whole == joined + last
  {
    AppendAssoc(first, ",", restJoined, last);
  }

  lemma KeepCommasStep(args: seq<Arg>, argc: nat, j: nat)
    requires j < |args| && !(|args| - j >= 2 && args[|args| - 1].text == [])
    requires VarJoinFrom(args, argc, j + 1, true) == Join(VarItems(args, argc, j + 1), ",")
    ensures VarJoinFrom(args, argc, j, true) == Join(VarItems(args, argc, j), ",")
  {
    var rest := VarItems(args, argc, j + 1);
    VarJoinFromHead(args, argc, j, true);
    if rest != [] {
      assert VarComma(args, j, true);
      JoinCons(VarText(args, argc, j), rest, ",");
    }
  }

  lemma JoinCons(x: string, xs: seq<string>, sep: string)
    requires xs != []
    ensures Join([x] + xs, sep) == x + sep + Join(xs, sep)
  {
    assert ([x] + xs)[1..] == xs;
  }

  lemma VarJoinConcat(args: seq<Arg>, argc: nat)
    ensures var items := if argc <= |args| then VarItems(args, argc, argc) else [];
      VarJoin(args, argc, true)
      == if |items| >= 2 && args[|args| - 1].text == [] then ElidedJoin(items) else Join(items, ",")
  {
    if argc <= |args| {
      VarJoinFromConcat(args, argc, argc);
    }
  }
}
