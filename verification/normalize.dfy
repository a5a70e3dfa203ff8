/**
  `normalize_text` (scrapping/scrappingcommerce.py): the six steps in their
  order, and what the composition guarantees.
 */
module Normalizer {
  import opened Chars
  import opened Text
  import opened Deletions
  import opened Collapsing
  import opened LetterRuns
  import opened Punctuation

  /** Steps 1 to 5: apostrophe, whitespace runs, letter runs, punctuation. */
  function Cleaned(s: string): string {
    var t := Collapse(ReplaceQuote(s), 0);
    StripBefore(StripAfterOpen(StripBefore(JoinLetters(t), Punct)), Close)
  }

  /** `normalize_text(s)`: the cleaned text, stripped. */
  function Normalize(s: string): (r: string)
    ensures Trimmed(r)
  {
    Strip(Cleaned(s))
  }

  /**
    The shape every intermediate text has from step 2 on: single `" "`
    separators, no `’`, and the non-whitespace characters `n`.
   */
  predicate Shaped(t: string, n: string) {
    NoDoubleSpace(t) && OnlyBlanks(t) && RightQuote !in t && NonSpace(t) == n
  }

  /** After steps 1 and 2 the text has the shape, with the input's non-whitespace characters requoted. */
  lemma {:induction false} CollapsedShaped(s: string)
    ensures Shaped(Collapse(ReplaceQuote(s), 0), ReplaceQuote(NonSpace(s)))
  {
    var q := ReplaceQuote(s);
    CollapseNoDoubleSpace(q, 0);
    CollapseOnlyBlanks(q, 0);
    CollapseChars(q, 0);
    CollapseNonSpace(q, 0);
    assert q[0..] == q;
    NonSpaceReplaceQuote(s);
  }

  /** Deleting whitespace keeps the shape. */
  lemma {:induction false} RetainShaped(t: string, keep: seq<bool>, n: string)
    requires |keep| == |t| && DropsOnlySpace(t, keep) && Shaped(t, n)
    ensures Shaped(Retain(t, keep, 0), n)
  {
    RetainNoDoubleSpace(t, keep, 0);
    RetainOnlyBlanks(t, keep);
    RetainChars(t, keep, 0);
    RetainNonSpace(t, keep, 0);
    assert t[0..] == t;
  }

  /**
    What the text is before the final strip: it has the shape, and no
    whitespace before `,.;:?!` or `)` or after `(`.
   */
  lemma {:induction false} CleanedSpec(s: string)
    ensures var x := Cleaned(s);
      Shaped(x, ReplaceQuote(NonSpace(s))) &&
      NoSpaceBefore(x, Punct) && NoSpaceAfter(x, '(') && NoSpaceBefore(x, Close)
  {
    var n := ReplaceQuote(NonSpace(s));
    var t := Collapse(ReplaceQuote(s), 0);
    CollapsedShaped(s);
    MarksNotSpace();
    // step 3
    var u := JoinLetters(t);
    JoinDropsOnlySpace(t);
    RetainShaped(t, JoinMask(Kinds(t), 0), n);
    // step 4
    var v := StripBefore(u, Punct);
    BeforeDropsOnlySpace(u, Punct);
    RetainShaped(u, BeforeMask(u, Punct, 0), n);
    StripBeforeClean(u, Punct);
    // step 5, `(`
    var w := StripAfterOpen(v);
    OpenDropsOnlySpace(v);
    RetainShaped(v, OpenMask(v, 0), n);
    RetainNoSpaceBefore(v, OpenMask(v, 0), 0, Punct);
    StripAfterOpenClean(v);
    // step 5, `)`
    BeforeDropsOnlySpace(w, Close);
    RetainShaped(w, BeforeMask(w, Close, 0), n);
    RetainNoSpaceBefore(w, BeforeMask(w, Close, 0), 0, Punct);
    RetainNoSpaceAfter(w, BeforeMask(w, Close, 0), 0, '(');
    StripBeforeClean(w, Close);
  }

  /**
    The normalizer's guarantees: no `’`, no whitespace at either end, no
    two whitespace characters in a row and every one a `" "`, no whitespace
    before `,.;:?!` or `)` or after `(`; and nothing else changes: the
    non-whitespace characters are the input's, in order, with `’` replaced
    by `'`.
   */
  lemma {:induction false} NormalizeSpec(s: string)
    ensures var r := Normalize(s);
      Trimmed(r) && RightQuote !in r && NoDoubleSpace(r) && OnlyBlanks(r) &&
      NoSpaceBefore(r, Punct) && NoSpaceBefore(r, Close) && NoSpaceAfter(r, '(') &&
      NonSpace(r) == ReplaceQuote(NonSpace(s))
  {
    var x := Cleaned(s);
    CleanedSpec(s);
    var lo := SpanStart(x, 0);
    var hi := SpanEnd(x, lo, |x|);
    assert Normalize(s) == x[lo..hi];
    SliceKeeps(x, lo, hi, Punct, '(');
    SliceKeeps(x, lo, hi, Close, '(');
    NonSpaceStrip(x);
  }

  /** A trimmed text ends with `?` exactly when its last non-whitespace character is `?`. */
  lemma {:induction false} TrimmedEnd(t: string)
    requires Trimmed(t)
    ensures EndsWithQuestionMark(t) <==> |NonSpace(t)| > 0 && Last(NonSpace(t)) == '?'
  {
    if |t| > 0 {
      var c := t[|t| - 1];
      assert t == t[..|t| - 1] + [c];
      NonSpaceAppend(t[..|t| - 1], [c]);
      assert NonSpace([c]) == [c];
    } else {
      assert NonSpace(t) == [];
    }
  }

  /** The text ends with `?`, once stripped, exactly when its normal form does. */
  lemma {:induction false} NormalizeQuestion(s: string)
    ensures IsQuestionLine(s) <==> EndsWithQuestionMark(Normalize(s))
  {
    var r := Normalize(s);
    NormalizeSpec(s);
    TrimmedEnd(r);
    TrimmedEnd(Strip(s));
    NonSpaceStrip(s);
  }
}
