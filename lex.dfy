/** Character classes and cursor-advancing scans used by the macro loader.
    Text is a `seq<char>`; a cursor is an index into it, and the position
    `|s|` plays the part of the terminating NUL character. */
module Lex {

  /** The character under cursor `i`, with NUL past either end. */
  function At(s: string, i: int): (r: char)
  {
    if 0 <= i < |s| then s[i] else '\0'
  }

  /** Space, tab, carriage return, newline, vertical tab and form feed. */
  predicate IsWhitespace(c: char)
  {
    c == ' ' || c == '\t' || c == '\r' || c == '\n' || c == '\U{B}' || c == '\U{C}'
  }

  predicate IsAlpha(c: char)
  {
    ('a' <= c <= 'z') || ('A' <= c <= 'Z')
  }

  predicate IsDigit(c: char)
  {
    '0' <= c <= '9'
  }

  /** A character that may appear in an identifier: `[A-Za-z0-9_]`. */
  predicate IsWordChar(c: char)
  {
    IsAlpha(c) || IsDigit(c) || c == '_'
  }

  /** The fixed delimiter sets the loader scans for. */
  datatype Charset =
    | Blank        // whitespace
    | NameEnd      // whitespace or '(' : the end of a macro name
    | CloseParen   // ')'
    | FieldEnd     // ',' or ')' : the end of one argument
    | Word         // [A-Za-z0-9_]

  predicate InCharset(c: char, cs: Charset)
  {
    match cs
    case Blank => IsWhitespace(c)
    case NameEnd => IsWhitespace(c) || c == '('
    case CloseParen => c == ')'
    case FieldEnd => c == ',' || c == ')'
    case Word => IsWordChar(c)
  }

  /** Advances from `i` to the first character in `cs`, or to the end. */
  function SkipTo(s: string, i: nat, cs: Charset): (r: nat)
    requires i <= |s|
    ensures i <= r <= |s|
    ensures r == |s| || InCharset(s[r], cs)
    decreases |s| - i
  {
    if i == |s| || InCharset(s[i], cs) then i else SkipTo(s, i + 1, cs)
  }

  /** Advances from `i` over characters in `cs`. */
  function SkipFrom(s: string, i: nat, cs: Charset): (r: nat)
    requires i <= |s|
    ensures i <= r <= |s|
    ensures r == |s| || !InCharset(s[r], cs)
    decreases |s| - i
  {
    if i == |s| || !InCharset(s[i], cs) then i else SkipFrom(s, i + 1, cs)
  }

  /** Advances from `i` over whitespace. */
  function SkipWhitespace(s: string, i: nat): (r: nat)
    requires i <= |s|
  {
    SkipFrom(s, i, Blank)
  }

  /** A scan to a delimiter passes no delimiter: it stops at the first one. */
  lemma {:induction false} SkipToPasses(s: string, i: nat, cs: Charset)
    requires i <= |s|
    ensures forall k :: i <= k < SkipTo(s, i, cs) ==> !InCharset(s[k], cs)
    decreases |s| - i
  {
    if i < |s| && !InCharset(s[i], cs) {
      SkipToPasses(s, i + 1, cs);
    }
  }

  /** A scan over a class passes only characters of that class. */
  lemma {:induction false} SkipFromPasses(s: string, i: nat, cs: Charset)
    requires i <= |s|
    ensures forall k :: i <= k < SkipFrom(s, i, cs) ==> InCharset(s[k], cs)
    decreases |s| - i
  {
    if i < |s| && InCharset(s[i], cs) {
      SkipFromPasses(s, i + 1, cs);
    }
  }

  /** A scan that stops at the first delimiter stops at the same place when it
      is restarted from any point it has already passed. */
  lemma {:induction false} SkipToRestart(s: string, i: nat, j: nat, cs: Charset)
    requires i <= j <= |s| && j <= SkipTo(s, i, cs)
    ensures SkipTo(s, j, cs) == SkipTo(s, i, cs)
    decreases j - i
  {
    if i < j {
      SkipToRestart(s, i + 1, j, cs);
    }
  }

  /** A scan to a delimiter never passes a position that holds one. */
  lemma SkipToBounded(s: string, i: nat, e: nat, cs: Charset)
    requires i <= e < |s| && InCharset(s[e], cs)
    ensures SkipTo(s, i, cs) <= e
  {
    SkipToPasses(s, i, cs);
  }

  /** Skipping whitespace never passes a non-whitespace character. */
  lemma SkipWhitespaceBounded(s: string, i: nat, e: nat)
    requires i <= e < |s| && !IsWhitespace(s[e])
    ensures SkipWhitespace(s, i) <= e
  {
    SkipFromPasses(s, i, Blank);
  }
}
