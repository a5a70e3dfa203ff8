/**
  Deleting characters by a keep-mask. Three of the normalizer's
  substitutions (the letter-run join and the two punctuation clean-ups) only
  ever delete whitespace; this module states what such a deletion keeps:
  the non-whitespace characters, the absence of double whitespace, of
  whitespace before given punctuation and of whitespace after a given
  opening character.
 */
module Deletions {
  import opened Chars
  import opened Text

  /** No two whitespace characters in a row. */
  predicate NoDoubleSpace(s: string) {
    forall j :: 0 <= j < |s| - 1 ==> !(IsSpace(s[j]) && IsSpace(s[j + 1]))
  }

  /** No whitespace character directly before a character of `marks`. */
  predicate NoSpaceBefore(s: string, marks: set<char>) {
    forall j :: 0 <= j < |s| - 1 && IsSpace(s[j]) ==> s[j + 1] !in marks
  }

  /** No whitespace character directly after `c`. */
  predicate NoSpaceAfter(s: string, c: char) {
    forall j :: 0 <= j < |s| - 1 && s[j] == c ==> !IsSpace(s[j + 1])
  }

  /** Every whitespace character is `" "`. */
  predicate OnlyBlanks(s: string) {
    forall j :: 0 <= j < |s| && IsSpace(s[j]) ==> s[j] == ' '
  }

  /** The mask only ever drops whitespace. */
  predicate DropsOnlySpace(s: string, keep: seq<bool>)
    requires |keep| == |s|
  {
    forall p :: 0 <= p < |s| && !keep[p] ==> IsSpace(s[p])
  }

  /** The characters of `s[i..]` whose mask bit is set, in order. */
  function Retain(s: string, keep: seq<bool>, i: nat): (r: string)
    requires |keep| == |s| && i <= |s|
    ensures |r| <= |s| - i
    decreases |s| - i
  {
    if i == |s| then [] else (if keep[i] then [s[i]] else []) + Retain(s, keep, i + 1)
  }

  /** Deleting whitespace keeps every other character, in order. */
  lemma {:induction false} RetainNonSpace(s: string, keep: seq<bool>, i: nat)
    requires |keep| == |s| && i <= |s| && DropsOnlySpace(s, keep)
    ensures NonSpace(Retain(s, keep, i)) == NonSpace(s[i..])
    decreases |s| - i
  {
    if i < |s| {
      var head := if keep[i] then [s[i]] else [];
      RetainNonSpace(s, keep, i + 1);
      NonSpaceAppend(head, Retain(s, keep, i + 1));
      SliceCons(s, i);
      NonSpaceAppend([s[i]], s[i + 1..]);
      if !keep[i] {
        NonSpaceOfSpace([s[i]]);
      }
    }
  }

  /** A deletion introduces no character. */
  lemma {:induction false} RetainChars(s: string, keep: seq<bool>, i: nat)
    requires |keep| == |s| && i <= |s|
    ensures forall x :: x in Retain(s, keep, i) ==> x in s[i..]
    decreases |s| - i
  {
    if i < |s| {
      RetainChars(s, keep, i + 1);
      SliceCons(s, i);
    }
  }

  /** `n` cleared mask bits. */
  function Dropped(n: nat): (r: seq<bool>)
    ensures |r| == n && forall j :: 0 <= j < n ==> !r[j]
  {
    if n == 0 then [] else [false] + Dropped(n - 1)
  }

  /** A deletion keeps every whitespace character `" "` when the text does. */
  lemma {:induction false} RetainOnlyBlanks(s: string, keep: seq<bool>)
    requires |keep| == |s| && OnlyBlanks(s)
    ensures OnlyBlanks(Retain(s, keep, 0))
  {
    RetainChars(s, keep, 0);
    var r := Retain(s, keep, 0);
    forall j | 0 <= j < |r| && IsSpace(r[j])
      ensures r[j] == ' '
    {
      assert r[j] in s[0..];
    }
  }

  /** When whitespace never doubles, a deletion's first character is whitespace only if it is the first one kept. */
  lemma {:induction false} RetainFirstSpace(s: string, keep: seq<bool>, i: nat)
    requires |keep| == |s| && i <= |s| && DropsOnlySpace(s, keep) && NoDoubleSpace(s)
    ensures var r := Retain(s, keep, i); |r| > 0 && IsSpace(r[0]) ==> keep[i] && IsSpace(s[i])
    decreases |s| - i
  {
    if i < |s| && !keep[i] {
      RetainFirstSpace(s, keep, i + 1);
    }
  }

  /** Deleting whitespace never makes two whitespace characters meet. */
  lemma {:induction false} RetainNoDoubleSpace(s: string, keep: seq<bool>, i: nat)
    requires |keep| == |s| && i <= |s| && DropsOnlySpace(s, keep) && NoDoubleSpace(s)
    ensures NoDoubleSpace(Retain(s, keep, i))
    decreases |s| - i
  {
    if i < |s| {
      RetainNoDoubleSpace(s, keep, i + 1);
      if keep[i] {
        RetainFirstSpace(s, keep, i + 1);
        ConsPairs(s[i], Retain(s, keep, i + 1));
      }
    }
  }

  /** Under the same hypothesis, a deletion starting with a mark starts with a kept mark. */
  lemma {:induction false} RetainFirstMark(s: string, keep: seq<bool>, i: nat, marks: set<char>)
    requires |keep| == |s| && i <= |s| && DropsOnlySpace(s, keep) && NoSpaceBefore(s, marks)
    ensures var r := Retain(s, keep, i); |r| > 0 && r[0] in marks ==> s[i] in marks
    decreases |s| - i
  {
    if i < |s| && !keep[i] {
      RetainFirstMark(s, keep, i + 1, marks);
    }
  }

  /** Deleting whitespace never puts whitespace in front of a mark. */
  lemma {:induction false} RetainNoSpaceBefore(s: string, keep: seq<bool>, i: nat, marks: set<char>)
    requires |keep| == |s| && i <= |s| && DropsOnlySpace(s, keep) && NoSpaceBefore(s, marks)
    ensures NoSpaceBefore(Retain(s, keep, i), marks)
    decreases |s| - i
  {
    if i < |s| {
      RetainNoSpaceBefore(s, keep, i + 1, marks);
      if keep[i] {
        RetainFirstMark(s, keep, i + 1, marks);
        ConsPairs(s[i], Retain(s, keep, i + 1));
      }
    }
  }

  /** A deletion that drops only whitespace starts with whitespace only where the text does. */
  lemma {:induction false} RetainFirstOfSpace(s: string, keep: seq<bool>, i: nat)
    requires |keep| == |s| && i < |s| && DropsOnlySpace(s, keep)
    ensures var r := Retain(s, keep, i); |r| > 0 && IsSpace(r[0]) ==> IsSpace(s[i])
  {
  }

  /** Deleting whitespace never puts whitespace right after `c`. */
  lemma {:induction false} RetainNoSpaceAfter(s: string, keep: seq<bool>, i: nat, c: char)
    requires |keep| == |s| && i <= |s| && DropsOnlySpace(s, keep) && NoSpaceAfter(s, c)
    ensures NoSpaceAfter(Retain(s, keep, i), c)
    decreases |s| - i
  {
    if i < |s| {
      RetainNoSpaceAfter(s, keep, i + 1, c);
      if keep[i] {
        if i + 1 < |s| {
          RetainFirstOfSpace(s, keep, i + 1);
        }
        ConsPairs(s[i], Retain(s, keep, i + 1));
      }
    }
  }

  /** The first position at or after `j` whose mask bit is set, or `|keep|`. */
  function NextKept(keep: seq<bool>, j: nat): (q: nat)
    requires j <= |keep|
    ensures j <= q <= |keep|
    ensures q < |keep| ==> keep[q]
    ensures forall x :: j <= x < q ==> !keep[x]
    decreases |keep| - j
  {
    if j == |keep| || keep[j] then j else NextKept(keep, j + 1)
  }

  /** `NextKept` finds the first set bit: nothing set in `[j, k)` and `k` set (or the end) makes it `k`. */
  lemma {:induction false} NextKeptAt(keep: seq<bool>, j: nat, k: nat)
    requires j <= k <= |keep|
    requires forall x :: j <= x < k ==> !keep[x]
    requires k < |keep| ==> keep[k]
    ensures NextKept(keep, j) == k
    decreases k - j
  {
    if j < k {
      NextKeptAt(keep, j + 1, k);
    }
  }

  /** A mask that keeps everything deletes nothing. */
  lemma {:induction false} RetainAll(s: string, keep: seq<bool>, i: nat)
    requires |keep| == |s| && i <= |s|
    requires forall p :: i <= p < |s| ==> keep[p]
    ensures Retain(s, keep, i) == s[i..]
    decreases |s| - i
  {
    if i < |s| {
      RetainAll(s, keep, i + 1);
      SliceCons(s, i);
    }
  }

  /** A deletion starts with the first kept character, and is empty when nothing is kept. */
  lemma {:induction false} RetainHead(s: string, keep: seq<bool>, j: nat)
    requires |keep| == |s| && j <= |s|
    ensures var r := Retain(s, keep, j); var q := NextKept(keep, j);
      (|r| == 0 <==> q == |s|) && (q < |s| ==> r[0] == s[q])
    decreases |s| - j
  {
    if j < |s| && !keep[j] {
      RetainHead(s, keep, j + 1);
    }
  }

  /**
    A deletion has no whitespace before a mark when no kept whitespace
    character is followed, at the next kept position, by a mark.
   */
  lemma {:induction false} RetainMakesNoSpaceBefore(s: string, keep: seq<bool>, i: nat, marks: set<char>)
    requires |keep| == |s| && i <= |s|
    requires forall p :: i <= p < |s| && keep[p] && IsSpace(s[p]) && NextKept(keep, p + 1) < |s| ==>
      s[NextKept(keep, p + 1)] !in marks
    ensures NoSpaceBefore(Retain(s, keep, i), marks)
    decreases |s| - i
  {
    if i < |s| {
      RetainMakesNoSpaceBefore(s, keep, i + 1, marks);
      if keep[i] {
        RetainHead(s, keep, i + 1);
        ConsPairs(s[i], Retain(s, keep, i + 1));
      }
    }
  }

  /**
    A deletion has no whitespace after `c` when no kept `c` is followed, at
    the next kept position, by whitespace.
   */
  lemma {:induction false} RetainMakesNoSpaceAfter(s: string, keep: seq<bool>, i: nat, c: char)
    requires |keep| == |s| && i <= |s|
    requires forall p :: i <= p < |s| && keep[p] && s[p] == c && NextKept(keep, p + 1) < |s| ==>
      !IsSpace(s[NextKept(keep, p + 1)])
    ensures NoSpaceAfter(Retain(s, keep, i), c)
    decreases |s| - i
  {
    if i < |s| {
      RetainMakesNoSpaceAfter(s, keep, i + 1, c);
      if keep[i] {
        RetainHead(s, keep, i + 1);
        ConsPairs(s[i], Retain(s, keep, i + 1));
      }
    }
  }

  /** The adjacent pairs of `[c] + r`: the one at the front, and those of `r`. */
  lemma {:induction false} ConsPairs(c: char, r: string)
    ensures forall j :: 1 <= j < |r| ==> ([c] + r)[j] == r[j - 1] && ([c] + r)[j + 1] == r[j]
    ensures |r| > 0 ==> ([c] + r)[0] == c && ([c] + r)[1] == r[0]
  {
  }

  lemma {:induction false} SliceCons(s: string, i: nat)
    requires i < |s|
    ensures s[i..] == [s[i]] + s[i + 1..]
  {
  }

  /** The properties above survive taking a slice, such as the one `str.strip()` keeps. */
  lemma {:induction false} SliceKeeps(s: string, lo: nat, hi: nat, marks: set<char>, c: char)
    requires lo <= hi <= |s|
    ensures NoDoubleSpace(s) ==> NoDoubleSpace(s[lo..hi])
    ensures NoSpaceBefore(s, marks) ==> NoSpaceBefore(s[lo..hi], marks)
    ensures NoSpaceAfter(s, c) ==> NoSpaceAfter(s[lo..hi], c)
    ensures OnlyBlanks(s) ==> OnlyBlanks(s[lo..hi])
    ensures forall x :: x in s[lo..hi] ==> x in s
  {
    var t := s[lo..hi];
    assert forall j :: 0 <= j < |t| ==> t[j] == s[lo + j];
  }
}
