/**
  Character classes used by the two FAQ scrapers' regular expressions and
  string methods: Python's `\s` (which agrees with `str.isspace` and the
  characters `str.strip` removes), `\w`, `\d`, the letter class
  `[A-Za-zÀ-ÖØ-öø-ÿ]` of the letter-spacing repair, the line boundaries of
  `str.splitlines`, and the case folding that `re.IGNORECASE` applies.
 */
module Chars {

  /** Python's `\s` on `str` patterns: exactly the characters for which `str.isspace()` holds. */
  predicate IsSpace(c: char) {
    || c == ' '
    || ('\t' <= c <= '\r')
    || ('\U{1C}' <= c <= '\U{1F}')
    || c == '\U{85}'
    || c == '\U{A0}'
    || c == '\U{1680}'
    || ('\U{2000}' <= c <= '\U{200A}')
    || c == '\U{2028}'
    || c == '\U{2029}'
    || c == '\U{202F}'
    || c == '\U{205F}'
    || c == '\U{3000}'
  }

  /** Python's `\d`: decimal digits (ASCII, Arabic-Indic and Extended Arabic-Indic). */
  predicate IsDigit(c: char) {
    || ('0' <= c <= '9')
    || ('\U{660}' <= c <= '\U{669}')
    || ('\U{6F0}' <= c <= '\U{6F9}')
  }

  /** The letter class `[A-Za-zÀ-ÖØ-öø-ÿ]` of the letter-spacing repair. */
  predicate IsRunLetter(c: char) {
    || ('A' <= c <= 'Z')
    || ('a' <= c <= 'z')
    || ('\U{C0}' <= c <= '\U{D6}')
    || ('\U{D8}' <= c <= '\U{F6}')
    || ('\U{F8}' <= c <= '\U{FF}')
  }

  /**
    Python's `\w`: letters, digits and `_`. Exact on Latin-1; above it only
    the Latin Extended-A and -B letters are word characters here.
   */
  predicate IsWord(c: char) {
    || IsRunLetter(c)
    || IsDigit(c)
    || c == '_'
    || c == '\U{AA}' || c == '\U{B2}' || c == '\U{B3}' || c == '\U{B5}'
    || c == '\U{B9}' || c == '\U{BA}' || ('\U{BC}' <= c <= '\U{BE}')
    || ('\U{100}' <= c <= '\U{24F}')
  }

  /** The characters at which `str.splitlines` breaks a line. */
  predicate IsLineBoundary(c: char) {
    || c == '\n' || c == '\r' || c == '\U{B}' || c == '\U{C}'
    || ('\U{1C}' <= c <= '\U{1E}')
    || c == '\U{85}' || c == '\U{2028}' || c == '\U{2029}'
  }

  /**
    The case folding `re.IGNORECASE` compares literals under: ASCII and
    Latin-1 capitals map to their small letters, and the few characters
    Python folds onto an ASCII letter (long s, dotless and dotted i, Kelvin
    sign) map to that letter.
   */
  function Fold(c: char): char {
    if 'A' <= c <= 'Z' then (c as int + 32) as char
    else if '\U{C0}' <= c <= '\U{DE}' && c != '\U{D7}' then (c as int + 32) as char
    else if c == '\U{17F}' then 's'
    else if c == '\U{130}' || c == '\U{131}' then 'i'
    else if c == '\U{212A}' then 'k'
    else c
  }

  /** The letter class is part of `\w`, and no class overlaps `\s`. */
  lemma {:induction false} ClassesDisjoint(c: char)
    ensures IsRunLetter(c) ==> IsWord(c) && !IsSpace(c)
    ensures IsDigit(c) ==> IsWord(c) && !IsSpace(c)
    ensures IsWord(c) ==> !IsSpace(c)
    ensures IsLineBoundary(c) ==> IsSpace(c)
  {
  }

  /** Folding leaves whitespace and digits alone. */
  lemma {:induction false} FoldFixesSpaceAndDigits(c: char)
    ensures IsSpace(c) || IsDigit(c) ==> Fold(c) == c
  {
  }
}
