/**
  The regular expressions the scrapers search with, as hand-written
  matchers. A pattern is a sequence of atoms: one literal character
  (optionally compared under `re.IGNORECASE`) or a greedy repetition
  `\s*`, `\s+`, `\d+` of a character class. `Accepts` is the textbook
  meaning of a pattern (some split of the word fits the atoms); `MatchFrom`
  is the greedy matcher; `Search` is `re.search`'s leftmost scan. When every
  repetition is followed by something it cannot swallow (`Separated`),
  greedy matching without backtracking finds exactly the words the pattern
  accepts, which is what makes the greedy matcher a faithful model of
  Python's backtracking engine on these patterns.
 */
module Patterns {
  import opened Chars
  import opened Optional

  datatype CharClass = Whitespace | Digit

  predicate InClass(cls: CharClass, c: char) {
    match cls
    case Whitespace => IsSpace(c)
    case Digit => IsDigit(c)
  }

  predicate AllIn(cls: CharClass, w: string) {
    forall i :: 0 <= i < |w| ==> InClass(cls, w[i])
  }

  datatype Atom =
    | Char(c: char, ignoreCase: bool)   // one literal character
    | Run(cls: CharClass, min: nat)     // `cls*` when min is 0, `cls+` when min is 1; greedy

  type Pattern = seq<Atom>

  /** A literal compared exactly, or by case folding under `re.IGNORECASE`. */
  predicate CharMatches(a: char, ignoreCase: bool, x: char) {
    if ignoreCase then Fold(x) == Fold(a) else x == a
  }

  /** The words a pattern matches, with no preference between splits. */
  ghost predicate Accepts(p: Pattern, w: string)
    decreases |p|
  {
    if |p| == 0 then |w| == 0
    else
      match p[0]
      case Char(a, ic) => |w| > 0 && CharMatches(a, ic, w[0]) && Accepts(p[1..], w[1..])
      case Run(cls, min) => exists k :: min <= k <= |w| && AllIn(cls, w[..k]) && Accepts(p[1..], w[k..])
  }

  /** The end of the longest run of `cls` characters starting at `i`. */
  function RunEnd(cls: CharClass, s: string, i: nat): (k: nat)
    requires i <= |s|
    ensures i <= k <= |s|
    ensures AllIn(cls, s[i..k])
    ensures k < |s| ==> !InClass(cls, s[k])
    decreases |s| - i
  {
    if i < |s| && InClass(cls, s[i]) then RunEnd(cls, s, i + 1) else i
  }

  /** Greedy matching of `p` at position `i` of `s`, without backtracking: the end of the match, if any. */
  function MatchFrom(p: Pattern, s: string, i: nat): (r: Option<nat>)
    requires i <= |s|
    ensures r.Some? ==> i <= r.value <= |s| && Accepts(p, s[i..r.value])
    decreases |p|
  {
    if |p| == 0 then Some(i)
    else
      match p[0]
      case Char(a, ic) =>
        if i < |s| && CharMatches(a, ic, s[i]) then
          var r := MatchFrom(p[1..], s, i + 1);
          if r.Some? then
            assert s[i..r.value][1..] == s[i + 1..r.value];
            r
          else None
        else None
      case Run(cls, min) =>
        var k := RunEnd(cls, s, i);
        if k - i >= min then
          var r := MatchFrom(p[1..], s, k);
          if r.Some? then
            assert s[i..r.value][..k - i] == s[i..k];
            assert s[i..r.value][k - i..] == s[k..r.value];
            r
          else None
        else None
  }

  /** The atoms after a repetition of `cls` cannot begin with a `cls` character. */
  predicate StopsRun(rest: Pattern, cls: CharClass)
    decreases |rest|
  {
    && |rest| > 0
    && match rest[0]
       case Char(a, _) => !InClass(cls, a) && !InClass(cls, Fold(a))
       case Run(cls2, min2) => cls2 != cls && (min2 > 0 || StopsRun(rest[1..], cls))
  }

  /** Every repetition is followed by atoms that stop it. */
  predicate Separated(p: Pattern) {
    forall k :: 0 <= k < |p| && p[k].Run? ==> StopsRun(p[k + 1..], p[k].cls)
  }

  lemma {:induction false} ClassesDisjoint(c1: CharClass, c2: CharClass, x: char)
    requires c1 != c2
    ensures !(InClass(c1, x) && InClass(c2, x))
  {
  }

  /** A word accepted by atoms that stop a run of `cls` starts with a character outside `cls`. */
  lemma {:induction false} StopsRunFirstChar(rest: Pattern, cls: CharClass, w: string)
    requires StopsRun(rest, cls) && Accepts(rest, w)
    ensures |w| > 0 && !InClass(cls, w[0])
    decreases |rest|
  {
    match rest[0]
    case Char(a, ic) =>
      FoldFixesSpaceAndDigits(w[0]);
    case Run(cls2, min2) =>
      var k :| min2 <= k <= |w| && AllIn(cls2, w[..k]) && Accepts(rest[1..], w[k..]);
      if k > 0 {
        assert InClass(cls2, w[..k][0]);
        ClassesDisjoint(cls, cls2, w[0]);
      } else {
        assert w[k..] == w;
        StopsRunFirstChar(rest[1..], cls, w);
      }
  }

  /** Completeness: on a separated pattern the greedy matcher finds every accepted word. */
  lemma {:induction false} MatchFromComplete(p: Pattern, s: string, i: nat, j: nat)
    requires Separated(p)
    requires i <= j <= |s| && Accepts(p, s[i..j])
    ensures MatchFrom(p, s, i) == Some(j)
    decreases |p|, 1
  {
    if |p| > 0 {
      if p[0].Char? {
        CompleteChar(p, s, i, j);
      } else {
        CompleteRun(p, s, i, j);
      }
    }
  }

  /** Completeness when the pattern starts with a literal character. */
  lemma {:induction false} CompleteChar(p: Pattern, s: string, i: nat, j: nat)
    requires |p| > 0 && p[0].Char? && Separated(p)
    requires i <= j <= |s| && Accepts(p, s[i..j])
    ensures MatchFrom(p, s, i) == Some(j)
    decreases |p|, 0
  {
    SeparatedTail(p);
    CharStep(p, s, i, j);
    MatchFromComplete(p[1..], s, i + 1, j);
    MatchFromChar(p, s, i);
  }

  /** Completeness when the pattern starts with a repetition. */
  lemma {:induction false} CompleteRun(p: Pattern, s: string, i: nat, j: nat)
    requires |p| > 0 && p[0].Run? && Separated(p)
    requires i <= j <= |s| && Accepts(p, s[i..j])
    ensures MatchFrom(p, s, i) == Some(j)
    decreases |p|, 0
  {
    var n := RunAdvance(p, s, i, j);
    SeparatedTail(p);
    MatchFromComplete(p[1..], s, n, j);
  }

  /** The greedy matcher's step over a leading repetition lands where the accepted word's rest begins. */
  lemma {:induction false} RunAdvance(p: Pattern, s: string, i: nat, j: nat) returns (n: nat)
    requires |p| > 0 && p[0].Run? && Separated(p)
    requires i <= j <= |s| && Accepts(p, s[i..j])
    ensures i <= n <= j && Accepts(p[1..], s[n..j]) && MatchFrom(p, s, i) == MatchFrom(p[1..], s, n)
  {
    var k := RunStep(p, s, i, j);
    n := i + k;
    MatchFromRun(p, s, i, n);
  }

  lemma {:induction false} MatchFromChar(p: Pattern, s: string, i: nat)
    requires |p| > 0 && p[0].Char? && i < |s| && CharMatches(p[0].c, p[0].ignoreCase, s[i])
    ensures MatchFrom(p, s, i) == MatchFrom(p[1..], s, i + 1)
  {
  }

  lemma {:induction false} MatchFromRun(p: Pattern, s: string, i: nat, n: nat)
    requires |p| > 0 && p[0].Run? && i <= n <= |s| && RunEnd(p[0].cls, s, i) == n && n - i >= p[0].min
    ensures MatchFrom(p, s, i) == MatchFrom(p[1..], s, n)
  {
  }

  /** A word a pattern starting with a literal accepts: that literal, then a word the rest accepts. */
  lemma {:induction false} CharStep(p: Pattern, s: string, i: nat, j: nat)
    requires |p| > 0 && p[0].Char?
    requires i <= j <= |s| && Accepts(p, s[i..j])
    ensures i < j && CharMatches(p[0].c, p[0].ignoreCase, s[i]) && Accepts(p[1..], s[i + 1..j])
  {
    SliceSplit(s, i, 1, j);
  }

  /** On a separated pattern starting with a repetition, the repetition takes the whole run. */
  lemma {:induction false} RunStep(p: Pattern, s: string, i: nat, j: nat) returns (k: nat)
    requires |p| > 0 && p[0].Run? && Separated(p)
    requires i <= j <= |s| && Accepts(p, s[i..j])
    ensures p[0].min <= k && i + k <= j && RunEnd(p[0].cls, s, i) == i + k && Accepts(p[1..], s[i + k..j])
  {
    var w := s[i..j];
    var cls := p[0].cls;
    k :| p[0].min <= k <= |w| && AllIn(cls, w[..k]) && Accepts(p[1..], w[k..]);
    assert StopsRun(p[1..], cls);
    StopsRunFirstChar(p[1..], cls, w[k..]);
    SliceSplit(s, i, k, j);
    RunEndUnique(cls, s, i, i + k);
  }

  lemma {:induction false} SeparatedTail(p: Pattern)
    requires |p| > 0 && Separated(p)
    ensures Separated(p[1..])
  {
    forall k | 0 <= k < |p[1..]| && p[1..][k].Run?
      ensures StopsRun(p[1..][k + 1..], p[1..][k].cls)
    {
      assert p[1..][k + 1..] == p[k + 2..];
    }
  }

  lemma {:induction false} SliceSplit<T>(s: seq<T>, i: nat, k: nat, j: nat)
    requires i + k <= j <= |s|
    ensures s[i..j][..k] == s[i..i + k] && s[i..j][k..] == s[i + k..j]
  {
  }

  lemma {:induction false} RunEndUnique(cls: CharClass, s: string, i: nat, k: nat)
    requires i <= k <= |s| && AllIn(cls, s[i..k])
    requires k < |s| ==> !InClass(cls, s[k])
    ensures RunEnd(cls, s, i) == k
    decreases k - i
  {
    if i < k {
      assert s[i..k][0] == s[i];
      assert s[i + 1..k] == s[i..k][1..];
      RunEndUnique(cls, s, i + 1, k);
    }
  }

  /** A match: the pattern accepts `s[start..end]`. */
  datatype Match = Match(start: nat, end: nat)

  /** `m` is the match `re.search` reports when scanning from `from`: nothing matches further left. */
  ghost predicate IsLeftmostMatch(p: Pattern, s: string, from: nat, m: Match) {
    && from <= m.start <= m.end <= |s|
    && Accepts(p, s[m.start..m.end])
    && forall i, j :: from <= i < m.start && i <= j <= |s| ==> !Accepts(p, s[i..j])
  }

  /** Nothing at or after `from` matches. */
  ghost predicate NoMatchFrom(p: Pattern, s: string, from: nat) {
    forall i, j :: from <= i <= j <= |s| ==> !Accepts(p, s[i..j])
  }

  /** `re.search(p, s[from:])`, in the coordinates of `s`. */
  function Search(p: Pattern, s: string, from: nat): (r: Option<Match>)
    requires from <= |s| && Separated(p)
    ensures r.Some? ==> IsLeftmostMatch(p, s, from, r.value)
    ensures r.Some? ==> forall j :: r.value.start <= j <= |s| && Accepts(p, s[r.value.start..j]) ==> j == r.value.end
    ensures r.None? ==> NoMatchFrom(p, s, from)
    decreases |s| - from
  {
    match MatchFrom(p, s, from)
    case Some(e) =>
      var r := Match(from, e);
      assert forall j :: from <= j <= |s| && Accepts(p, s[from..j]) ==> j == e by {
        forall j | from <= j <= |s| && Accepts(p, s[from..j]) ensures j == e {
          MatchFromComplete(p, s, from, j);
        }
      }
      Some(r)
    case None =>
      assert forall j :: from <= j <= |s| ==> !Accepts(p, s[from..j]) by {
        forall j | from <= j <= |s| && Accepts(p, s[from..j]) ensures false {
          MatchFromComplete(p, s, from, j);
        }
      }
      if from == |s| then None else Search(p, s, from + 1)
  }

  /** A word compared character by character (all atoms are literals). */
  function Literal(w: string, ignoreCase: bool): (p: Pattern)
    ensures |p| == |w|
    ensures forall i :: 0 <= i < |p| ==> p[i] == Char(w[i], ignoreCase)
  {
    seq(|w|, i requires 0 <= i < |w| => Char(w[i], ignoreCase))
  }

  lemma {:induction false} LiteralSeparated(w: string, ignoreCase: bool)
    ensures Separated(Literal(w, ignoreCase))
  {
  }

  /** A case-sensitive literal pattern accepts exactly its own word, so searching for it is `str.find`. */
  lemma {:induction false} LiteralAcceptsExactly(w: string, x: string)
    ensures Accepts(Literal(w, false), x) <==> x == w
    decreases |w|
  {
    var p := Literal(w, false);
    if |w| > 0 {
      assert p[1..] == Literal(w[1..], false);
      if |x| > 0 {
        LiteralAcceptsExactly(w[1..], x[1..]);
        assert x == [x[0]] + x[1..];
        assert w == [w[0]] + w[1..];
      }
    }
  }

  /** On a separated pattern, `re.search` reports one match: the leftmost match from `from` is unique. */
  lemma {:induction false} LeftmostUnique(p: Pattern, s: string, from: nat, m1: Match, m2: Match)
    requires Separated(p)
    requires IsLeftmostMatch(p, s, from, m1) && IsLeftmostMatch(p, s, from, m2)
    ensures m1 == m2
  {
    assert m1.start == m2.start;
    MatchFromComplete(p, s, m1.start, m1.end);
    MatchFromComplete(p, s, m2.start, m2.end);
  }

  /**
    Words separated by `\s+`, as in `Foire\s+aux\s+questions`: the literals
    of `words[0]`, a `\s+` run, the literals of `words[1]`, and so on.
   */
  function SpacedWords(words: seq<string>, ignoreCase: bool): (p: Pattern)
    decreases |words|
  {
    if |words| == 0 then []
    else if |words| == 1 then Literal(words[0], ignoreCase)
    else Literal(words[0], ignoreCase) + [Run(Whitespace, 1)] + SpacedWords(words[1..], ignoreCase)
  }

  /** Words that start with a character which neither is nor folds to whitespace. */
  predicate WordsStopSpace(words: seq<string>) {
    forall i :: 0 <= i < |words| ==> |words[i]| > 0 && !IsSpace(words[i][0]) && !IsSpace(Fold(words[i][0]))
  }

  /** A `\s+` between words that do not start with whitespace is a separated pattern. */
  lemma {:induction false} SpacedWordsSeparated(words: seq<string>, ignoreCase: bool)
    requires WordsStopSpace(words)
    ensures Separated(SpacedWords(words, ignoreCase))
    decreases |words|
  {
    if |words| == 1 {
      LiteralSeparated(words[0], ignoreCase);
    } else if |words| > 1 {
      var head := Literal(words[0], ignoreCase);
      var tail := SpacedWords(words[1..], ignoreCase);
      var p := head + [Run(Whitespace, 1)] + tail;
      assert WordsStopSpace(words[1..]) by {
        forall i | 0 <= i < |words[1..]| ensures |words[1..][i]| > 0 && !IsSpace(words[1..][i][0]) && !IsSpace(Fold(words[1..][i][0])) {
          assert words[1..][i] == words[i + 1];
        }
      }
      SpacedWordsSeparated(words[1..], ignoreCase);
      SpacedWordsStartWith(words[1..], ignoreCase);
      forall k | 0 <= k < |p| && p[k].Run?
        ensures StopsRun(p[k + 1..], p[k].cls)
      {
        if k == |head| {
          assert p[k + 1..] == tail;
        } else {
          assert k > |head|;
          assert p[k] == tail[k - |head| - 1];
          assert p[k + 1..] == tail[k - |head|..];
        }
      }
    }
  }

  lemma {:induction false} SpacedWordsStartWith(words: seq<string>, ignoreCase: bool)
    requires |words| > 0 && |words[0]| > 0
    ensures |SpacedWords(words, ignoreCase)| > 0
    ensures SpacedWords(words, ignoreCase)[0] == Char(words[0][0], ignoreCase)
  {
  }
}
