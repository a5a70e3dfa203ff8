/**
  The punctuation clean-up of `normalize_text`: three substitutions that
  delete whitespace next to punctuation.

    re.sub(r"\s+([,.;:?!])", r"\1", text)   whitespace before a mark
    re.sub(r"\(\s+", "(", text)             whitespace after `(`
    re.sub(r"\s+\)", ")", text)             whitespace before `)`

  Each is modelled twice: as the left-to-right scan `re.sub` performs,
  producing a keep-mask, and as a pointwise rule saying which positions
  are deleted; a lemma shows the two agree.
 */
module Punctuation {
  import opened Chars
  import opened Text
  import opened Deletions

  /** The marks `[,.;:?!]` that whitespace is removed in front of. */
  const Punct: set<char> := {',', '.', ';', ':', '?', '!'}

  /** The closing parenthesis, which whitespace is removed in front of too. */
  const Close: set<char> := {')'}

  /** No mark is whitespace. */
  predicate NoSpaceMarks(marks: set<char>) {
    forall c :: c in marks ==> !IsSpace(c)
  }

  lemma {:induction false} MarksNotSpace()
    ensures NoSpaceMarks(Punct) && NoSpaceMarks(Close) && !IsSpace('(')
  {
  }

  // ---------------------------------------------------------------------
  // Whitespace before a mark: `\s+([marks])` -> the mark
  // ---------------------------------------------------------------------

  /**
    Which positions `re.sub(r"\s+([marks])", r"\1", s)` keeps: it deletes a
    whitespace character exactly when the whitespace run it belongs to is
    followed by a mark.
   */
  predicate KeepBefore(s: string, marks: set<char>, p: nat)
    requires p < |s|
  {
    var k := SpanStart(s, p);
    !(IsSpace(s[p]) && k < |s| && s[k] in marks)
  }

  /**
    The scan of `re.sub` from position `i`: a match is a whitespace run
    (taken whole, `\s+` being greedy) followed by a mark; the run is
    deleted, the mark kept and the scan goes on after it. Elsewhere one
    character is kept and the scan moves on by one.
   */
  function BeforeMask(s: string, marks: set<char>, i: nat): (r: seq<bool>)
    requires i <= |s|
    ensures |r| == |s| - i
    decreases |s| - i
  {
    if i == |s| then []
    else
      var k := SpanStart(s, i);
      if IsSpace(s[i]) && k < |s| && s[k] in marks then
        Dropped(k - i) + [true] + BeforeMask(s, marks, k + 1)
      else
        [true] + BeforeMask(s, marks, i + 1)
  }

  /** `mask` keeps, from position `i` on, exactly what the pointwise rule keeps. */
  predicate BeforeAgrees(mask: seq<bool>, s: string, marks: set<char>, i: nat)
    requires i <= |s|
  {
    |mask| == |s| - i && forall p :: i <= p < |s| ==> mask[p - i] == KeepBefore(s, marks, p)
  }

  /** The scan deletes exactly what the pointwise rule deletes. */
  lemma {:induction false} BeforeMaskKeeps(s: string, marks: set<char>, i: nat)
    requires i <= |s|
    ensures BeforeAgrees(BeforeMask(s, marks, i), s, marks, i)
    decreases |s| - i
  {
    if i < |s| {
      var k := SpanStart(s, i);
      if IsSpace(s[i]) && k < |s| && s[k] in marks {
        BeforeMaskKeeps(s, marks, k + 1);
        BeforeMatch(s, marks, i, k, BeforeMask(s, marks, i), BeforeMask(s, marks, k + 1));
      } else {
        BeforeMaskKeeps(s, marks, i + 1);
        BeforeSkip(s, marks, i, BeforeMask(s, marks, i), BeforeMask(s, marks, i + 1));
      }
    }
  }

  lemma {:induction false} BeforeMatch(s: string, marks: set<char>, i: nat, k: nat, mask: seq<bool>, rest: seq<bool>)
    requires i < k < |s| && k == SpanStart(s, i) && s[k] in marks
    requires mask == Dropped(k - i) + [true] + rest && |rest| == |s| - (k + 1)
    requires BeforeAgrees(rest, s, marks, k + 1)
    ensures BeforeAgrees(mask, s, marks, i)
  {
    forall p | i <= p < k
      ensures !KeepBefore(s, marks, p)
    {
      SpanStartWithin(s, i, p);
    }
  }

  lemma {:induction false} BeforeSkip(s: string, marks: set<char>, i: nat, mask: seq<bool>, rest: seq<bool>)
    requires i < |s| && KeepBefore(s, marks, i)
    requires mask == [true] + rest && |rest| == |s| - (i + 1)
    requires BeforeAgrees(rest, s, marks, i + 1)
    ensures BeforeAgrees(mask, s, marks, i)
  {
  }

  /** Every position inside a whitespace run ends the run at the same place. */
  lemma {:induction false} SpanStartWithin(s: string, i: nat, j: nat)
    requires i <= |s| && i <= j <= SpanStart(s, i)
    ensures SpanStart(s, j) == SpanStart(s, i)
    decreases j - i
  {
    if i < j {
      SpanStartWithin(s, i + 1, j);
    }
  }

  /** `re.sub(r"\s+([marks])", r"\1", s)` */
  function StripBefore(s: string, marks: set<char>): string {
    Retain(s, BeforeMask(s, marks, 0), 0)
  }

  lemma {:induction false} BeforeKeeps(s: string, marks: set<char>)
    ensures forall p :: 0 <= p < |s| ==> BeforeMask(s, marks, 0)[p] == KeepBefore(s, marks, p)
  {
    BeforeMaskKeeps(s, marks, 0);
  }

  /** The substitution deletes whitespace only. */
  lemma {:induction false} BeforeDropsOnlySpace(s: string, marks: set<char>)
    ensures DropsOnlySpace(s, BeforeMask(s, marks, 0))
  {
    BeforeKeeps(s, marks);
  }

  /** After the substitution no whitespace precedes a mark. */
  lemma {:induction false} StripBeforeClean(s: string, marks: set<char>)
    requires NoSpaceMarks(marks)
    ensures NoSpaceBefore(StripBefore(s, marks), marks)
  {
    var keep := BeforeMask(s, marks, 0);
    BeforeKeeps(s, marks);
    forall p | 0 <= p < |s| && keep[p] && IsSpace(s[p]) && NextKept(keep, p + 1) < |s|
      ensures s[NextKept(keep, p + 1)] !in marks
    {
      BeforeNext(s, marks, p);
      NextKeptAt(keep, p + 1, p + 1);
    }
    RetainMakesNoSpaceBefore(s, keep, 0, marks);
  }

  /** A kept whitespace character is followed by a kept character that is not a mark. */
  lemma {:induction false} BeforeNext(s: string, marks: set<char>, p: nat)
    requires p + 1 < |s| && IsSpace(s[p]) && KeepBefore(s, marks, p) && NoSpaceMarks(marks)
    ensures KeepBefore(s, marks, p + 1) && s[p + 1] !in marks
  {
  }

  /** A text with no whitespace before a mark is left as it is. */
  lemma {:induction false} StripBeforeFixes(s: string, marks: set<char>)
    requires NoSpaceBefore(s, marks)
    ensures StripBefore(s, marks) == s
  {
    var keep := BeforeMask(s, marks, 0);
    BeforeKeeps(s, marks);
    forall p | 0 <= p < |s|
      ensures keep[p]
    {
      CleanKeeps(s, marks, p);
    }
    RetainAll(s, keep, 0);
  }

  lemma {:induction false} CleanKeeps(s: string, marks: set<char>, p: nat)
    requires p < |s| && NoSpaceBefore(s, marks)
    ensures KeepBefore(s, marks, p)
  {
    var k := SpanStart(s, p);
    if IsSpace(s[p]) && k < |s| {
      assert IsSpace(s[k - 1]);
    }
  }

  // ---------------------------------------------------------------------
  // Whitespace after an opening parenthesis: `\(\s+` -> `(`
  // ---------------------------------------------------------------------

  /**
    Which positions `re.sub(r"\(\s+", "(", s)` keeps: it deletes a
    whitespace character exactly when the whitespace run it belongs to
    starts right after a `(`.
   */
  predicate KeepAfterOpen(s: string, p: nat)
    requires p < |s|
  {
    var b := SpanEnd(s, 0, p);
    !(IsSpace(s[p]) && b > 0 && s[b - 1] == '(')
  }

  /**
    The scan of `re.sub` from position `i`: a match is a `(` followed by a
    whitespace run, which is deleted; the scan goes on after the run.
   */
  function OpenMask(s: string, i: nat): (r: seq<bool>)
    requires i <= |s|
    ensures |r| == |s| - i
    decreases |s| - i
  {
    if i == |s| then []
    else if s[i] == '(' && i + 1 < |s| && IsSpace(s[i + 1]) then
      var k := SpanStart(s, i + 1);
      [true] + Dropped(k - (i + 1)) + OpenMask(s, k)
    else
      [true] + OpenMask(s, i + 1)
  }

  /**
    From any position the pointwise rule keeps (in particular the start)
    the scan deletes exactly what the pointwise rule deletes.
   */
  /** `mask` keeps, from position `i` on, exactly what the pointwise rule keeps. */
  predicate OpenAgrees(mask: seq<bool>, s: string, i: nat)
    requires i <= |s|
  {
    |mask| == |s| - i && forall p :: i <= p < |s| ==> mask[p - i] == KeepAfterOpen(s, p)
  }

  lemma {:induction false} OpenMaskKeeps(s: string, i: nat)
    requires i <= |s| && (i < |s| ==> KeepAfterOpen(s, i))
    ensures OpenAgrees(OpenMask(s, i), s, i)
    decreases |s| - i
  {
    if i < |s| {
      if s[i] == '(' && i + 1 < |s| && IsSpace(s[i + 1]) {
        var k := SpanStart(s, i + 1);
        OpenMaskKeeps(s, k);
        OpenMatch(s, i, k, OpenMask(s, i), OpenMask(s, k));
      } else {
        OpenStep(s, i);
        OpenMaskKeeps(s, i + 1);
        OpenSkip(s, i, OpenMask(s, i), OpenMask(s, i + 1));
      }
    }
  }

  lemma {:induction false} OpenMatch(s: string, i: nat, k: nat, mask: seq<bool>, rest: seq<bool>)
    requires i + 1 < |s| && s[i] == '(' && k == SpanStart(s, i + 1) && KeepAfterOpen(s, i)
    requires mask == [true] + Dropped(k - (i + 1)) + rest && |rest| == |s| - k
    requires OpenAgrees(rest, s, k)
    ensures OpenAgrees(mask, s, i)
  {
    MarksNotSpace();
    var d := Dropped(k - (i + 1));
    forall p | i <= p < |s|
      ensures mask[p - i] == KeepAfterOpen(s, p)
    {
      IndexThree([true], d, rest, p - i);
      if i < p < k {
        RunBeginWithin(s, i + 1, p);
      }
    }
  }

  lemma {:induction false} IndexThree<T>(a: seq<T>, b: seq<T>, c: seq<T>, j: nat)
    requires j < |a| + |b| + |c|
    ensures (a + b + c)[j] == if j < |a| then a[j] else if j < |a| + |b| then b[j - |a|] else c[j - |a| - |b|]
  {
  }

  lemma {:induction false} OpenSkip(s: string, i: nat, mask: seq<bool>, rest: seq<bool>)
    requires i < |s| && KeepAfterOpen(s, i)
    requires mask == [true] + rest && |rest| == |s| - (i + 1)
    requires OpenAgrees(rest, s, i + 1)
    ensures OpenAgrees(mask, s, i)
  {
  }

  /** Where the scan moves on by one, the pointwise rule keeps the next position. */
  lemma {:induction false} OpenStep(s: string, i: nat)
    requires i < |s| && KeepAfterOpen(s, i)
    requires !(s[i] == '(' && i + 1 < |s| && IsSpace(s[i + 1]))
    ensures i + 1 < |s| ==> KeepAfterOpen(s, i + 1)
  {
  }

  /** Inside a whitespace run that follows a non-whitespace character, the run starts right after it. */
  lemma {:induction false} RunBeginWithin(s: string, b: nat, j: nat)
    requires 0 < b <= j <= |s| && !IsSpace(s[b - 1])
    requires forall m :: b <= m < j ==> IsSpace(s[m])
    ensures SpanEnd(s, 0, j) == b
    decreases j - b
  {
    if b < j {
      RunBeginWithin(s, b, j - 1);
    }
  }

  /** `re.sub(r"\(\s+", "(", s)` */
  function StripAfterOpen(s: string): string {
    Retain(s, OpenMask(s, 0), 0)
  }

  /** The substitution deletes whitespace only. */
  lemma {:induction false} OpenDropsOnlySpace(s: string)
    ensures DropsOnlySpace(s, OpenMask(s, 0))
  {
    OpenKeeps(s);
  }

  lemma {:induction false} OpenKeeps(s: string)
    ensures forall p :: 0 <= p < |s| ==> OpenMask(s, 0)[p] == KeepAfterOpen(s, p)
  {
    OpenMaskKeeps(s, 0);
  }

  /** After the substitution no whitespace follows a `(`. */
  lemma {:induction false} StripAfterOpenClean(s: string)
    ensures NoSpaceAfter(StripAfterOpen(s), '(')
  {
    var keep := OpenMask(s, 0);
    OpenKeeps(s);
    forall p | 0 <= p < |s| && keep[p] && s[p] == '(' && NextKept(keep, p + 1) < |s|
      ensures !IsSpace(s[NextKept(keep, p + 1)])
    {
      OpenGap(s, keep, p);
    }
    RetainMakesNoSpaceAfter(s, keep, 0, '(');
  }

  /** The first position kept after a `(` is the end of the whitespace run behind it. */
  lemma {:induction false} OpenGap(s: string, keep: seq<bool>, p: nat)
    requires p < |s| && s[p] == '(' && |keep| == |s|
    requires forall x :: 0 <= x < |s| ==> keep[x] == KeepAfterOpen(s, x)
    ensures NextKept(keep, p + 1) == SpanStart(s, p + 1)
  {
    MarksNotSpace();
    var k := SpanStart(s, p + 1);
    forall m | p + 1 <= m < k
      ensures !keep[m]
    {
      RunBeginWithin(s, p + 1, m);
    }
    NextKeptAt(keep, p + 1, k);
  }

  /** A text with no whitespace after a `(` is left as it is. */
  lemma {:induction false} StripAfterOpenFixes(s: string)
    requires NoSpaceAfter(s, '(')
    ensures StripAfterOpen(s) == s
  {
    var keep := OpenMask(s, 0);
    OpenKeeps(s);
    forall p | 0 <= p < |s|
      ensures keep[p]
    {
      OpenCleanKeeps(s, p);
    }
    RetainAll(s, keep, 0);
  }

  lemma {:induction false} OpenCleanKeeps(s: string, p: nat)
    requires p < |s| && NoSpaceAfter(s, '(')
    ensures KeepAfterOpen(s, p)
  {
    var b := SpanEnd(s, 0, p);
    if IsSpace(s[p]) && b > 0 {
      assert IsSpace(s[b]);
    }
  }
}
