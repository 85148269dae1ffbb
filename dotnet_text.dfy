/**
 * The parts of .NET's text handling that the qualified-name parser and the
 * encoding-name recognizer rely on: the regular-expression character classes
 * `\w`, `\d` and `\s`, the meaning of the `$` anchor, and case-insensitive
 * comparison. The model compares case-insensitively by folding ASCII letters
 * only, with an invariant culture assumed; .NET's `OrdinalIgnoreCase` also folds
 * other letters, and `RegexOptions.IgnoreCase` follows the current culture.
 *
 * The character classes are Unicode categories in .NET. They are kept abstract
 * here: a `CharClasses` value is any choice of the three predicates, and the
 * lemmas that need to know how a particular character is classified require the
 * choice to be `Consistent`, that is, to agree with .NET on ASCII and to keep
 * the relations .NET's classes have on every character.
 */
module DotNetText {
  import opened Results

  /** The regular-expression classes `\w`, `\d` and `\s`. */
  datatype CharClasses = CharClasses(word: char -> bool, digit: char -> bool, space: char -> bool)

  predicate IsAscii(c: char) {
    c as int < 128
  }

  predicate IsAsciiLetter(c: char) {
    'a' <= c <= 'z' || 'A' <= c <= 'Z'
  }

  predicate IsAsciiDigit(c: char) {
    '0' <= c <= '9'
  }

  /** Space, tab, line feed, vertical tab, form feed and carriage return. */
  predicate IsAsciiSpace(c: char) {
    c == ' ' || c == '\t' || c == '\n' || c as int == 11 || c as int == 12 || c == '\r'
  }

  /**
   * On ASCII, `\w` is letters, digits and `_`, `\d` is the ten digits and `\s`
   * the six white-space characters; on every character a digit is a word
   * character and no word character is white space.
   */
  predicate Consistent(cls: CharClasses) {
    && (forall c: char :: IsAscii(c) ==> (cls.word(c) <==> IsAsciiLetter(c) || IsAsciiDigit(c) || c == '_'))
    && (forall c: char :: IsAscii(c) ==> (cls.digit(c) <==> IsAsciiDigit(c)))
    && (forall c: char :: IsAscii(c) ==> (cls.space(c) <==> IsAsciiSpace(c)))
    && (forall c: char :: cls.digit(c) ==> cls.word(c))
    && (forall c: char :: cls.word(c) ==> !cls.space(c))
  }

  /** The three classes restricted to ASCII, one choice that is `Consistent`. */
  function AsciiClasses(): (cls: CharClasses)
    ensures Consistent(cls)
  {
    CharClasses(
      c => IsAscii(c) && (IsAsciiLetter(c) || IsAsciiDigit(c) || c == '_'),
      c => IsAscii(c) && IsAsciiDigit(c),
      c => IsAscii(c) && IsAsciiSpace(c))
  }

  /**
   * The text a pattern ending in `$` has to match: without the Multiline
   * option, `$` matches at the very end of the input and also just before a
   * line feed that is the input's last character.
   */
  function EndAnchorBody(s: string): (body: string)
    ensures s == body || s == body + "\n"
    ensures s == body <==> |s| == 0 || s[|s| - 1] != '\n'
  {
    if |s| > 0 && s[|s| - 1] == '\n' then s[..|s| - 1] else s
  }

  /** The text a possibly-null string stands for where null is read as the empty string. */
  function TextOf(s: Option<string>): string {
    if s.Some? then s.value else ""
  }

  /** Upper-case ASCII letters mapped to lower case; every other character unchanged. */
  function FoldCase(c: char): char {
    if 'A' <= c <= 'Z' then (c as int + 32) as char else c
  }

  /** Lower-case ASCII letters mapped to upper case; every other character unchanged. */
  function UpperCase(c: char): char {
    if 'a' <= c <= 'z' then (c as int - 32) as char else c
  }

  /** `s` with its ASCII letters in upper case, as `ToUpper` leaves an ASCII string. */
  function ToUpper(s: string): (r: string)
    ensures |r| == |s|
    ensures forall i :: 0 <= i < |s| ==> r[i] == UpperCase(s[i])
  {
    seq(|s|, i requires 0 <= i < |s| => UpperCase(s[i]))
  }

  /** The model's case-insensitive comparison: ASCII letters folded, every other character compared as is. */
  predicate EqualsIgnoreCase(a: string, b: string) {
    |a| == |b| && forall i :: 0 <= i < |a| ==> FoldCase(a[i]) == FoldCase(b[i])
  }

  /** Ignoring case, a string equals itself in upper case. */
  lemma {:induction false} EqualsIgnoreCaseUpper(s: string)
    ensures EqualsIgnoreCase(s, ToUpper(s))
    ensures EqualsIgnoreCase(ToUpper(s), s)
  {
    forall i | 0 <= i < |s|
      ensures FoldCase(s[i]) == FoldCase(ToUpper(s)[i])
    {
      assert ToUpper(s)[i] == UpperCase(s[i]);
    }
  }

  /** Ignoring case is an equivalence: reflexive, symmetric and transitive. */
  lemma {:induction false} EqualsIgnoreCaseEquivalence(a: string, b: string, c: string)
    ensures EqualsIgnoreCase(a, a)
    ensures EqualsIgnoreCase(a, b) ==> EqualsIgnoreCase(b, a)
    ensures EqualsIgnoreCase(a, b) && EqualsIgnoreCase(b, c) ==> EqualsIgnoreCase(a, c)
  {
  }
}
