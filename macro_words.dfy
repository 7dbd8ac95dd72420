/** The converse of the spelling law: the body cutter leaves no reference
    inside a literal. Every whole word run of a literal part is a run the
    cutter looked up and found to be no reference. */
module MacroWords {
  import opened Lex
  import opened MacroTypes
  import opened MacroLoad

  /** `s[i..j]` is a whole word run of the segment `s[a..b]`: word characters
      only, and no word character next to it inside the segment. */
  predicate RunIn(s: string, a: int, b: int, i: int, j: int)
  {
    && 0 <= a <= i < j <= b <= |s|
    && (i == a || !IsWordChar(s[i - 1]))
    && (j == b || !IsWordChar(s[j]))
    && forall k :: i <= k < j ==> IsWordChar(s[k])
  }

  /** No whole word run of the segment `s[a..b]` is a reference. */
  ghost predicate PlainSegment(s: string, a: int, b: int, names: seq<Arg>, hasVarArgs: bool)
  {
    forall i, j :: RunIn(s, a, b, i, j) ==> WordRef(s[i..j], names, hasVarArgs).None?
  }

  /** No whole word run of the text `t` is a reference. */
  ghost predicate NoRefRun(t: string, names: seq<Arg>, hasVarArgs: bool)
  {
    PlainSegment(t, 0, |t|, names, hasVarArgs)
  }

  /** Every literal of `ps` holds no reference. */
  ghost predicate LiteralsPlain(ps: seq<Part>, names: seq<Arg>, hasVarArgs: bool)
  {
    forall i :: 0 <= i < |ps| && ps[i].Literal? ==> NoRefRun(ps[i].text, names, hasVarArgs)
  }

  /** A segment without references, taken out as a text of its own. */
  lemma SegmentText(s: string, a: nat, b: nat, t: string, names: seq<Arg>, hasVarArgs: bool)
    requires a <= b <= |s| && PlainSegment(s, a, b, names, hasVarArgs) && t == s[a..b]
    ensures NoRefRun(t, names, hasVarArgs)
  {
    forall i, j | RunIn(t, 0, |t|, i, j) ensures WordRef(t[i..j], names, hasVarArgs).None? {
      assert RunIn(s, a, b, a + i, a + j) by {
        forall k | a + i <= k < a + j ensures IsWordChar(s[k]) {
          assert s[k] == t[k - a];
        }
      }
      SliceOfSlice(s, a, b, i, j);
    }
  }

  lemma SliceOfSlice(s: string, a: nat, b: nat, i: nat, j: nat)
    requires a <= b <= |s| && i <= j <= b - a
    ensures s[a..b][i..j] == s[a + i..a + j]
  {
    assert forall k :: 0 <= k < j - i ==> s[a..b][i..j][k] == s[a + i + k];
  }

  /** Non-word characters added to a segment add no run. */
  lemma SegmentSkip(s: string, a: nat, c: nat, p: nat, names: seq<Arg>, hasVarArgs: bool)
    requires a <= c <= p <= |s| && PlainSegment(s, a, c, names, hasVarArgs)
    requires forall k :: c <= k < p ==> !IsWordChar(s[k])
    ensures PlainSegment(s, a, p, names, hasVarArgs)
  {
    forall i, j | RunIn(s, a, p, i, j) ensures WordRef(s[i..j], names, hasVarArgs).None? {
      assert IsWordChar(s[j - 1]);
      assert RunIn(s, a, c, i, j);
    }
  }

  /** A whole word run that is no reference, added to a segment, adds no
      reference. */
  lemma SegmentWord(s: string, a: nat, p: nat, e: nat, names: seq<Arg>, hasVarArgs: bool)
    requires a <= p <= e <= |s| && PlainSegment(s, a, p, names, hasVarArgs)
    requires p == a || !IsWordChar(s[p - 1])
    requires forall k :: p <= k < e ==> IsWordChar(s[k])
    requires e == |s| || !IsWordChar(s[e])
    requires WordRef(s[p..e], names, hasVarArgs).None?
    ensures PlainSegment(s, a, e, names, hasVarArgs)
  {
    forall i, j | RunIn(s, a, e, i, j) ensures WordRef(s[i..j], names, hasVarArgs).None? {
      if j <= p {
        assert RunIn(s, a, p, i, j);
      } else {
        assert i == p && j == e;
      }
    }
  }

  /** Cutting a segment before a non-word character adds no run. */
  lemma SegmentNarrow(s: string, a: nat, m: nat, b: nat, names: seq<Arg>, hasVarArgs: bool)
    requires a <= m <= b <= |s| && PlainSegment(s, a, b, names, hasVarArgs)
    requires m == b || !IsWordChar(s[m])
    ensures PlainSegment(s, a, m, names, hasVarArgs)
  {
    forall i, j | RunIn(s, a, m, i, j) ensures WordRef(s[i..j], names, hasVarArgs).None? {
      assert RunIn(s, a, b, i, j);
    }
  }

  /** The literal `Mark` leaves is the pending text up to its marker, which
      starts with `#`. */
  lemma MarkCut(s: string, a: nat, b: nat, lit: string, marked: Part)
    requires a <= b <= |s| && lit + Marker(marked) == s[a..b]
    ensures a + |lit| <= b && lit == s[a..a + |lit|]
    ensures a + |lit| == b || s[a + |lit|] == '#'
  {
    var m := Marker(marked);
    assert lit == (lit + m)[..|lit|];
    if m != [] {
      assert s[a + |lit|] == (lit + m)[|lit|] == m[0];
    }
  }

  lemma EmitPlainAppend(lit: string, marked: Part, rest: seq<Part>, names: seq<Arg>, hasVarArgs: bool)
    requires NoRefRun(lit, names, hasVarArgs) && marked.ArgRef?
    requires LiteralsPlain(rest, names, hasVarArgs)
    ensures LiteralsPlain(Emit(lit, marked) + rest, names, hasVarArgs)
  {
    var head := Emit(lit, marked);
    forall i | 0 <= i < |head + rest| && (head + rest)[i].Literal?
      ensures NoRefRun((head + rest)[i].text, names, hasVarArgs)
    {
      if i >= |head| {
        assert (head + rest)[i] == rest[i - |head|];
      } else {
        assert (head + rest)[i] == head[i];
      }
    }
  }

  /** The cutter from cursor `c`, with literal text pending since `cStart`
      that holds no reference and that ends at a word boundary, leaves no
      reference in any literal. */
  lemma {:induction false} PartsFromPlainLiterals(s: string, c: nat, cStart: nat, names: seq<Arg>, hasVarArgs: bool)
    requires cStart <= c <= |s| && PlainSegment(s, cStart, c, names, hasVarArgs)
    requires c == cStart || c == |s| || !IsWordChar(s[c])
    ensures LiteralsPlain(PartsFrom(s, c, cStart, names, hasVarArgs), names, hasVarArgs)
    decreases |s| - c
  {
    if c == |s| {
      PlainTail(s, cStart, names, hasVarArgs);
    } else {
      var partStart := SkipTo(s, c, Word);
      var partEnd := SkipFrom(s, partStart, Word);
      var found := WordRef(s[partStart..partEnd], names, hasVarArgs);
      if found.None? {
        PlainWordStep(s, c, cStart, names, hasVarArgs, partStart, partEnd);
        PartsFromPlainLiterals(s, partEnd, cStart, names, hasVarArgs);
      } else {
        var m := Mark(s[cStart..partStart], found.value);
        var next := SkipWhitespace(s, partEnd);
        RefWordStep(s, c, cStart, names, hasVarArgs, partStart, partEnd, found.value, m.0, m.1, next);
        PartsFromPlainLiterals(s, next, next, names, hasVarArgs);
        EmitPlainAppend(m.0, m.1, PartsFrom(s, next, next, names, hasVarArgs), names, hasVarArgs);
      }
    }
  }

  /** At the end of the text, the pending literal is the only part. */
  lemma PlainTail(s: string, cStart: nat, names: seq<Arg>, hasVarArgs: bool)
    requires cStart <= |s| && PlainSegment(s, cStart, |s|, names, hasVarArgs)
    ensures LiteralsPlain(PartsFrom(s, |s|, cStart, names, hasVarArgs), names, hasVarArgs)
  {
    if cStart < |s| {
      SegmentText(s, cStart, |s|, s[cStart..], names, hasVarArgs);
      assert s[cStart..|s|] == s[cStart..];
      assert PartsFrom(s, |s|, cStart, names, hasVarArgs) == [Literal(s[cStart..])];
    }
  }

  /** A word run that is no reference joins the pending literal text. */
  lemma PlainWordStep(s: string, c: nat, cStart: nat, names: seq<Arg>, hasVarArgs: bool,
                      partStart: nat, partEnd: nat)
    requires cStart <= c < |s| && PlainSegment(s, cStart, c, names, hasVarArgs)
    requires c == cStart || !IsWordChar(s[c])
    requires partStart == SkipTo(s, c, Word) && partEnd == SkipFrom(s, partStart, Word)
    requires WordRef(s[partStart..partEnd], names, hasVarArgs).None?
    ensures PlainSegment(s, cStart, partEnd, names, hasVarArgs)
    ensures partEnd == |s| || !IsWordChar(s[partEnd])
    ensures PartsFrom(s, c, cStart, names, hasVarArgs) == PartsFrom(s, partEnd, cStart, names, hasVarArgs)
  {
    SkipToPasses(s, c, Word);
    SkipFromPasses(s, partStart, Word);
    SegmentSkip(s, cStart, c, partStart, names, hasVarArgs);
    SegmentWord(s, cStart, partStart, partEnd, names, hasVarArgs);
    PartsFromPlainWord(s, c, cStart, names, hasVarArgs, partStart, partEnd);
  }

  /** A word run that is a reference emits the pending literal, which holds
      no reference, less its marker. */
  lemma RefWordStep(s: string, c: nat, cStart: nat, names: seq<Arg>, hasVarArgs: bool,
                    partStart: nat, partEnd: nat, ref: Part, lit: string, marked: Part, next: nat)
    requires cStart <= c < |s| && PlainSegment(s, cStart, c, names, hasVarArgs)
    requires partStart == SkipTo(s, c, Word) && partEnd == SkipFrom(s, partStart, Word)
    requires WordRef(s[partStart..partEnd], names, hasVarArgs) == Some(ref)
    requires (lit, marked) == Mark(s[cStart..partStart], ref) && next == SkipWhitespace(s, partEnd)
    ensures NoRefRun(lit, names, hasVarArgs) && marked.ArgRef?
    ensures PartsFrom(s, c, cStart, names, hasVarArgs) == Emit(lit, marked) + PartsFrom(s, next, next, names, hasVarArgs)
  {
    SkipToPasses(s, c, Word);
    SegmentSkip(s, cStart, c, partStart, names, hasVarArgs);
    PartsFromRefWord(s, c, cStart, names, hasVarArgs, partStart, partEnd, ref, lit, marked, next);
    MarkedLiteralPlain(s, cStart, partStart, lit, marked, names, hasVarArgs);
  }

  /** The pending text less its marker holds no reference when the pending
      text holds none. */
  lemma MarkedLiteralPlain(s: string, a: nat, b: nat, lit: string, marked: Part, names: seq<Arg>, hasVarArgs: bool)
    requires a <= b <= |s| && PlainSegment(s, a, b, names, hasVarArgs)
    requires lit + Marker(marked) == s[a..b]
    ensures NoRefRun(lit, names, hasVarArgs)
  {
    MarkCut(s, a, b, lit, marked);
    SegmentNarrow(s, a, a + |lit|, b, names, hasVarArgs);
    SegmentText(s, a, a + |lit|, lit, names, hasVarArgs);
  }

  /** No literal part of a cut body holds a whole word run that is a
      reference: every run spelling a parameter (or `__VA_ARGS__` in a
      variadic macro) became a reference part. */
  lemma BodyPartsLiteralsPlain(s: string, c: nat, names: seq<Arg>, hasVarArgs: bool)
    requires c <= |s|
    ensures LiteralsPlain(BodyParts(s, c, names, hasVarArgs), names, hasVarArgs)
  {
    var w := SkipWhitespace(s, c);
    PartsFromPlainLiterals(s, w, w, names, hasVarArgs);
  }

  /** `t` is made of word characters only. */
  predicate WordText(t: string)
  {
    forall k :: 0 <= k < |t| ==> IsWordChar(t[k])
  }

  /** Every reference of `ps` to a named parameter points at a parameter of
      `names` whose name is made of word characters only. */
  predicate RefsToWordNames(ps: seq<Part>, names: seq<Arg>)
  {
    forall i :: 0 <= i < |ps| && ps[i].ArgRef? && !ps[i].variadic ==>
      0 <= ps[i].argPos < |names| && WordText(names[ps[i].argPos].text)
  }

  lemma EmitWordNamesAppend(lit: string, marked: Part, rest: seq<Part>, names: seq<Arg>)
    requires marked.ArgRef? && !marked.variadic ==> 0 <= marked.argPos < |names| && WordText(names[marked.argPos].text)
    requires RefsToWordNames(rest, names)
    ensures RefsToWordNames(Emit(lit, marked) + rest, names)
  {
    var head := Emit(lit, marked);
    forall i | 0 <= i < |head + rest| && (head + rest)[i].ArgRef? && !(head + rest)[i].variadic
      ensures 0 <= (head + rest)[i].argPos < |names| && WordText(names[(head + rest)[i].argPos].text)
    {
      if i >= |head| {
        assert (head + rest)[i] == rest[i - |head|];
      } else {
        assert (head + rest)[i] == head[i];
      }
    }
  }

  /** The cutter only makes a reference out of a word run that spells the
      parameter's whole name. */
  lemma {:induction false} PartsFromWordNames(s: string, c: nat, cStart: nat, names: seq<Arg>, hasVarArgs: bool)
    requires cStart <= c <= |s|
    ensures RefsToWordNames(PartsFrom(s, c, cStart, names, hasVarArgs), names)
    decreases |s| - c
  {
    if c < |s| {
      var partStart := SkipTo(s, c, Word);
      var partEnd := SkipFrom(s, partStart, Word);
      var found := WordRef(s[partStart..partEnd], names, hasVarArgs);
      if found.None? {
        PartsFromPlainWord(s, c, cStart, names, hasVarArgs, partStart, partEnd);
        PartsFromWordNames(s, partEnd, cStart, names, hasVarArgs);
      } else {
        var m := Mark(s[cStart..partStart], found.value);
        var next := SkipWhitespace(s, partEnd);
        PartsFromRefWord(s, c, cStart, names, hasVarArgs, partStart, partEnd, found.value, m.0, m.1, next);
        PartsFromWordNames(s, next, next, names, hasVarArgs);
        SkipFromPasses(s, partStart, Word);
        assert WordText(s[partStart..partEnd]);
        EmitWordNamesAppend(m.0, m.1, PartsFrom(s, next, next, names, hasVarArgs), names);
      }
    }
  }

  /** A parameter whose name holds a character that is not a word
      character, such as the trailing space of `a ` in `ADD(a , b)`, is
      never referenced by the body. */
  lemma BodyNeverRefersToSpacedName(s: string, c: nat, names: seq<Arg>, hasVarArgs: bool, pos: nat, k: nat)
    requires c <= |s| && pos < |names| && k < |names[pos].text| && !IsWordChar(names[pos].text[k])
    ensures forall i :: 0 <= i < |BodyParts(s, c, names, hasVarArgs)| ==>
      var p := BodyParts(s, c, names, hasVarArgs)[i];
      !(p.ArgRef? && !p.variadic && p.argPos == pos)
  {
    var w := SkipWhitespace(s, c);
    PartsFromWordNames(s, w, w, names, hasVarArgs);
  }
}
