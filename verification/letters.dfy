/**
  The letter-spacing repair of `normalize_text`: `re.sub` with the pattern
  `(?<!\w)((?:L\s){2,}L)(?!\w)`, `L` the letter class `[A-Za-zÀ-ÖØ-öø-ÿ]`,
  replacing each match by itself with its `" "` characters removed. So
  `"v e n t e s de biens"` becomes `"ventes de biens"`, `"a b c d5"` becomes
  `"abc d5"` (the greedy repetition backs off one letter when the next
  character is a word character), and `"il y a à faire"` becomes
  `"il yaà faire"`.

  The pattern only looks at which class each character belongs to, so the
  matching is stated over the text's classification (`Kinds`). The
  substitution is modelled as a keep-mask over the text: the scan of
  `re.sub` tries each position from the left, and a match keeps its
  non-`" "` characters and resumes after its end.
 */
module LetterRuns {
  import opened Chars
  import opened Optional
  import opened Text
  import opened Deletions

  /** How the pattern sees one character. */
  datatype Kind = Blank | OtherSpace | Letter | OtherWord | Other {
    /** `\s` */
    predicate Space() {
      this == Blank || this == OtherSpace
    }

    /** `\w` */
    predicate Word() {
      this == Letter || this == OtherWord
    }
  }

  function KindOf(c: char): (k: Kind)
    ensures k == Blank <==> c == ' '
    ensures k.Space() <==> IsSpace(c)
    ensures k == Letter <==> IsRunLetter(c)
    ensures k.Word() <==> IsWord(c)
  {
    ClassesDisjoint(c);
    if c == ' ' then Blank
    else if IsSpace(c) then OtherSpace
    else if IsRunLetter(c) then Letter
    else if IsWord(c) then OtherWord
    else Other
  }

  /** The classification of every character of `s`. */
  function Kinds(s: string): (k: seq<Kind>)
    ensures |k| == |s| && forall p :: 0 <= p < |s| ==> k[p] == KindOf(s[p])
  {
    seq(|s|, p requires 0 <= p < |s| => KindOf(s[p]))
  }

  /** The `t`-th letter-and-whitespace pair `L\s` after position `i` is present. */
  predicate PairAt(k: seq<Kind>, i: nat, t: nat) {
    i + 2 * t + 1 < |k| && k[i + 2 * t] == Letter && k[i + 2 * t + 1].Space()
  }

  /** `(?:L\s){m}L` matches at `i`: `m` pairs, then a letter at `i + 2m`. */
  predicate SpacedLetters(k: seq<Kind>, i: nat, m: nat) {
    && i + 2 * m < |k|
    && (forall t :: 0 <= t < m ==> PairAt(k, i, t))
    && k[i + 2 * m] == Letter
  }

  /**
    The whole pattern matches the characters `i .. i + 2m`: at least two
    pairs, no word character just before (`(?<!\w)`) and none just after
    (`(?!\w)`).
   */
  predicate ValidRun(k: seq<Kind>, i: nat, m: nat) {
    && m >= 2
    && SpacedLetters(k, i, m)
    && (i == 0 || !k[i - 1].Word())
    && (i + 2 * m + 1 == |k| || !k[i + 2 * m + 1].Word())
  }

  /** How many pairs the greedy repetition `(?:L\s)*` takes at `i`. */
  function PairCount(k: seq<Kind>, i: nat): nat
    requires i <= |k|
    decreases |k| - i
  {
    if PairAt(k, i, 0) then 1 + PairCount(k, i + 2) else 0
  }

  /** The greedy repetition takes every pair up to the first missing one. */
  lemma {:induction false} PairCountPairs(k: seq<Kind>, i: nat)
    requires i <= |k|
    ensures forall t :: 0 <= t < PairCount(k, i) ==> PairAt(k, i, t)
    ensures !PairAt(k, i, PairCount(k, i))
    decreases |k| - i
  {
    if PairAt(k, i, 0) {
      PairCountPairs(k, i + 2);
      var n := PairCount(k, i + 2);
      forall t | 0 < t <= n
        ensures PairAt(k, i, t)
      {
        assert PairAt(k, i + 2, t - 1);
      }
      assert !PairAt(k, i + 2, n);
    }
  }

  /**
    The match at `i`, as its number of pairs: the greedy repetition takes all
    the pairs it can; if the letter after them is missing or is followed by a
    word character, it gives back one pair, whose whitespace then satisfies
    `(?!\w)`.
   */
  function RunAt(k: seq<Kind>, i: nat): (r: Option<nat>)
    requires i <= |k|
  {
    var n := PairCount(k, i);
    if i > 0 && k[i - 1].Word() then None
    else if n >= 2 && i + 2 * n < |k| && k[i + 2 * n] == Letter
         && (i + 2 * n + 1 == |k| || !k[i + 2 * n + 1].Word()) then Some(n)
    else if n >= 3 then Some(n - 1)
    else None
  }

  /** Python's backtracking search and `RunAt` agree: the match at `i` is the longest valid run from `i`. */
  lemma {:induction false} RunAtLongest(k: seq<Kind>, i: nat)
    requires i <= |k|
    ensures RunAt(k, i).Some? ==> ValidRun(k, i, RunAt(k, i).value)
    ensures RunAt(k, i).Some? ==> forall m: nat :: ValidRun(k, i, m) ==> m <= RunAt(k, i).value
    ensures RunAt(k, i).None? ==> forall m: nat :: !ValidRun(k, i, m)
  {
    var n := PairCount(k, i);
    PairCountPairs(k, i);
    forall m: nat | ValidRun(k, i, m)
      ensures m <= n
    {
      PairsBound(k, i, m);
    }
    if n >= 3 && RunAt(k, i) == Some(n - 1) {
      BackOff(k, i, n);
    }
  }

  /** The greedy repetition takes at least as many pairs as any match has. */
  lemma {:induction false} PairsBound(k: seq<Kind>, i: nat, m: nat)
    requires i <= |k| && SpacedLetters(k, i, m)
    ensures m <= PairCount(k, i)
  {
    PairCountPairs(k, i);
  }

  /** Giving back the last of `n >= 3` pairs leaves a match: its whitespace is not a word character. */
  lemma {:induction false} BackOff(k: seq<Kind>, i: nat, n: nat)
    requires i <= |k| && n >= 3 && n == PairCount(k, i)
    requires i == 0 || !k[i - 1].Word()
    ensures ValidRun(k, i, n - 1)
  {
    PairCountPairs(k, i);
    assert PairAt(k, i, n - 1);
  }

  /** `[c != " " for c in s[i:e]]`: the replacement keeps everything but `" "`. */
  function SpaceFlags(k: seq<Kind>, i: nat, e: nat): (r: seq<bool>)
    requires i <= e <= |k|
    ensures |r| == e - i
  {
    seq(e - i, p requires 0 <= p < e - i => k[i + p] != Blank)
  }

  /** The keep-mask of the characters from `i` on that the substitution's scan from `i` produces. */
  function JoinMask(k: seq<Kind>, i: nat): (r: seq<bool>)
    requires i <= |k|
    ensures |r| == |k| - i
    decreases |k| - i
  {
    if i == |k| then []
    else
      match RunAt(k, i)
      case Some(m) =>
        RunAtLongest(k, i);
        SpaceFlags(k, i, i + 2 * m + 1) + JoinMask(k, i + 2 * m + 1)
      case None => [true] + JoinMask(k, i + 1)
  }

  /** Where no match starts, the scan keeps the character and moves on. */
  lemma {:induction false} NoRunSkip(k: seq<Kind>, i: nat)
    requires i < |k| && forall m: nat :: !ValidRun(k, i, m)
    ensures JoinMask(k, i) == [true] + JoinMask(k, i + 1)
  {
    RunAtLongest(k, i);
  }

  /** A match at `i` keeps its non-`" "` characters and the scan resumes after it. */
  lemma {:induction false} JoinMaskMatch(k: seq<Kind>, i: nat, m: nat)
    requires i < |k| && RunAt(k, i) == Some(m)
    ensures i + 2 * m + 1 <= |k|
    ensures JoinMask(k, i) == SpaceFlags(k, i, i + 2 * m + 1) + JoinMask(k, i + 2 * m + 1)
  {
    RunAtLongest(k, i);
  }

  /** The letter-spacing repair. */
  function JoinLetters(s: string): string {
    Retain(s, JoinMask(Kinds(s), 0), 0)
  }

  /** `p` lies strictly inside a match of the pattern (not at either end letter). */
  ghost predicate InRun(k: seq<Kind>, p: nat) {
    exists a: nat, m: nat :: ValidRun(k, a, m) && a < p < a + 2 * m
  }

  /** The scan drops only `" "` characters, and only inside a match. */
  lemma {:induction false} JoinMaskDrops(k: seq<Kind>, i: nat)
    requires i <= |k|
    ensures forall p :: 0 <= p < |k| - i && !JoinMask(k, i)[p] ==> k[i + p] == Blank && InRun(k, i + p)
    decreases |k| - i, 1
  {
    if i < |k| {
      match RunAt(k, i)
      case Some(m) => DropsAfterMatch(k, i, m);
      case None => DropsAfterSkip(k, i);
    }
  }

  lemma {:induction false} DropsAfterMatch(k: seq<Kind>, i: nat, m: nat)
    requires i < |k| && RunAt(k, i) == Some(m)
    ensures forall p :: 0 <= p < |k| - i && !JoinMask(k, i)[p] ==> k[i + p] == Blank && InRun(k, i + p)
    decreases |k| - i, 0
  {
    RunAtLongest(k, i);
    JoinMaskMatch(k, i, m);
    JoinMaskDrops(k, i + 2 * m + 1);
    MatchDrops(k, i, m, JoinMask(k, i), JoinMask(k, i + 2 * m + 1));
  }

  lemma {:induction false} DropsAfterSkip(k: seq<Kind>, i: nat)
    requires i < |k| && RunAt(k, i).None?
    ensures forall p :: 0 <= p < |k| - i && !JoinMask(k, i)[p] ==> k[i + p] == Blank && InRun(k, i + p)
    decreases |k| - i, 0
  {
    JoinMaskSkip(k, i);
    JoinMaskDrops(k, i + 1);
    SkipDrops(k, i, JoinMask(k, i), JoinMask(k, i + 1));
  }

  lemma {:induction false} MatchDrops(k: seq<Kind>, i: nat, m: nat, mask: seq<bool>, rest: seq<bool>)
    requires ValidRun(k, i, m) && i + 2 * m + 1 <= |k|
    requires mask == SpaceFlags(k, i, i + 2 * m + 1) + rest && |rest| == |k| - (i + 2 * m + 1)
    requires forall p :: 0 <= p < |rest| && !rest[p] ==> k[i + 2 * m + 1 + p] == Blank && InRun(k, i + 2 * m + 1 + p)
    ensures forall p :: 0 <= p < |mask| && !mask[p] ==> k[i + p] == Blank && InRun(k, i + p)
  {
    var e := i + 2 * m + 1;
    forall p | 0 <= p < |mask| && !mask[p]
      ensures k[i + p] == Blank && InRun(k, i + p)
    {
      if p < e - i {
        assert !SpaceFlags(k, i, e)[p];
        SpaceInsideRun(k, i, m, i + p);
      } else {
        assert mask[p] == rest[p - (e - i)];
      }
    }
  }

  lemma {:induction false} SkipDrops(k: seq<Kind>, i: nat, mask: seq<bool>, rest: seq<bool>)
    requires i < |k| && mask == [true] + rest && |rest| == |k| - (i + 1)
    requires forall p :: 0 <= p < |rest| && !rest[p] ==> k[i + 1 + p] == Blank && InRun(k, i + 1 + p)
    ensures forall p :: 0 <= p < |mask| && !mask[p] ==> k[i + p] == Blank && InRun(k, i + p)
  {
    forall p | 0 <= p < |mask| && !mask[p]
      ensures k[i + p] == Blank && InRun(k, i + p)
    {
      assert mask[p] == rest[p - 1];
    }
  }

  lemma {:induction false} JoinMaskSkip(k: seq<Kind>, i: nat)
    requires i < |k| && RunAt(k, i).None?
    ensures JoinMask(k, i) == [true] + JoinMask(k, i + 1)
  {
  }

  /** A `" "` of a match lies strictly between its first and last letters. */
  lemma {:induction false} SpaceInsideRun(k: seq<Kind>, a: nat, m: nat, p: nat)
    requires ValidRun(k, a, m) && a <= p <= a + 2 * m && k[p] == Blank
    ensures InRun(k, p)
  {
    SpaceIsOdd(k, a, m, p);
    assert a < p < a + 2 * m;
  }

  /** Within a match, whitespace sits at the odd offsets only. */
  lemma {:induction false} SpaceIsOdd(k: seq<Kind>, a: nat, m: nat, p: nat)
    requires ValidRun(k, a, m) && a <= p <= a + 2 * m && k[p].Space()
    ensures (p - a) % 2 == 1
  {
    var pair := PairAt(k, a, (p - a) / 2);
  }

  /** The repair drops only whitespace, so it is a deletion of the kind `Deletions` describes. */
  lemma {:induction false} JoinDropsOnlySpace(s: string)
    ensures DropsOnlySpace(s, JoinMask(Kinds(s), 0))
  {
    var k := Kinds(s);
    JoinMaskDrops(k, 0);
    forall p | 0 <= p < |s| && !JoinMask(k, 0)[p]
      ensures IsSpace(s[p])
    {
      assert k[p] == KindOf(s[p]);
    }
  }

  /**
    Inside a match, a whitespace character sits between two letters that
    stand alone: each has a non-word character or the text's end on its
    other side.
   */
  lemma {:induction false} RunSpaceNeighbours(k: seq<Kind>, p: nat)
    requires InRun(k, p) && k[p].Space()
    ensures 0 < p < |k| - 1 && k[p - 1] == Letter && k[p + 1] == Letter
    ensures p - 1 == 0 || !k[p - 2].Word()
    ensures p + 2 == |k| || !k[p + 2].Word()
  {
    var a: nat, m: nat :| ValidRun(k, a, m) && a < p < a + 2 * m;
    var t: nat := (p - a) / 2;
    SpaceIsOdd(k, a, m, p);
    assert p == a + 2 * t + 1 && PairAt(k, a, t);
    if t > 0 {
      assert PairAt(k, a, t - 1);
    }
    if t + 1 < m {
      assert PairAt(k, a, t + 1);
    }
  }

  /**
    A match holds at least three letters: a dropped whitespace character has
    another pair of whitespace and letter on one side of its two letters.
   */
  lemma {:induction false} RunSpaceInLongRun(k: seq<Kind>, p: nat)
    requires InRun(k, p) && k[p].Space()
    ensures || (p >= 3 && k[p - 2].Space() && k[p - 3] == Letter && (p == 3 || !k[p - 4].Word()))
            || (p + 3 < |k| && k[p + 2].Space() && k[p + 3] == Letter && (p + 4 == |k| || !k[p + 4].Word()))
  {
    var a: nat, m: nat :| ValidRun(k, a, m) && a < p < a + 2 * m;
    var t: nat := (p - a) / 2;
    SpaceIsOdd(k, a, m, p);
    if t > 1 {
      assert PairAt(k, a, t - 1) && PairAt(k, a, t - 2);
    } else if t == 1 {
      assert PairAt(k, a, 0);
    } else {
      assert PairAt(k, a, 1);
      if m > 2 {
        assert PairAt(k, a, 2);
      }
    }
  }

  /** Whitespace next to a word of two or more word characters is kept. */
  lemma {:induction false} WordSpaceKept(s: string, p: nat)
    requires p < |s| && IsSpace(s[p])
    requires || (p >= 2 && IsWord(s[p - 1]) && IsWord(s[p - 2]))
             || (p + 2 < |s| && IsWord(s[p + 1]) && IsWord(s[p + 2]))
    ensures JoinMask(Kinds(s), 0)[p]
  {
    var k := Kinds(s);
    JoinMaskDrops(k, 0);
    if !JoinMask(k, 0)[p] {
      assert k[p] == KindOf(s[p]);
      RunSpaceNeighbours(k, p);
    }
  }

  /**
    Whitespace between two lone letters that no third lone letter continues
    is kept: on neither side is there whitespace followed by a letter that
    stands alone (a non-word character or the text's end beyond it).
   */
  lemma {:induction false} TwoLettersKept(s: string, p: nat)
    requires p < |s| && IsSpace(s[p])
    requires !(p >= 3 && IsSpace(s[p - 2]) && IsRunLetter(s[p - 3]) && (p == 3 || !IsWord(s[p - 4])))
    requires !(p + 3 < |s| && IsSpace(s[p + 2]) && IsRunLetter(s[p + 3]) && (p + 4 == |s| || !IsWord(s[p + 4])))
    ensures JoinMask(Kinds(s), 0)[p]
  {
    var k := Kinds(s);
    JoinMaskDrops(k, 0);
    if !JoinMask(k, 0)[p] {
      assert k[p] == KindOf(s[p]);
      RunSpaceInLongRun(k, p);
    }
  }

  /** `n` set mask bits. */
  function KeepAll(n: nat): (r: seq<bool>)
    ensures |r| == n && forall j :: 0 <= j < n ==> r[j]
  {
    if n == 0 then [] else [true] + KeepAll(n - 1)
  }

  /** Before the first match, the scan keeps everything and then continues from it. */
  lemma {:induction false} ScanSkips(k: seq<Kind>, i: nat, a: nat)
    requires i <= a <= |k|
    requires forall j: nat, m: nat :: i <= j < a ==> !ValidRun(k, j, m)
    ensures JoinMask(k, i) == KeepAll(a - i) + JoinMask(k, a)
  {
    var masks := seq(a + 1, j requires 0 <= j <= a => JoinMask(k, j));
    forall j | i <= j < a
      ensures masks[j] == [true] + masks[j + 1]
    {
      NoRunSkip(k, j);
    }
    KeepPrefix(masks, i, a);
  }

  /** A chain of masks each one kept bit longer than the next. */
  lemma {:induction false} KeepPrefix(masks: seq<seq<bool>>, i: nat, a: nat)
    requires i <= a < |masks|
    requires forall j :: i <= j < a ==> masks[j] == [true] + masks[j + 1]
    ensures masks[i] == KeepAll(a - i) + masks[a]
    decreases a - i
  {
    if i < a {
      KeepPrefix(masks, i + 1, a);
      AppendAssoc([true], KeepAll(a - i - 1), masks[a]);
    } else {
      assert KeepAll(0) == [];
    }
  }

  /**
    The leftmost match is joined: when no match of the pattern starts before
    `a`, everything before `a` is kept and every `" "` of the longest match
    at `a` is removed.
   */
  lemma {:induction false} LeftmostRunJoined(k: seq<Kind>, a: nat, m: nat)
    requires ValidRun(k, a, m) && forall m': nat :: ValidRun(k, a, m') ==> m' <= m
    requires forall j: nat, m': nat :: j < a ==> !ValidRun(k, j, m')
    ensures forall p :: 0 <= p < a ==> JoinMask(k, 0)[p]
    ensures forall p :: a <= p < a + 2 * m + 1 ==> JoinMask(k, 0)[p] == (k[p] != Blank)
  {
    ScanSkips(k, 0, a);
    LongestIsRunAt(k, a, m);
    JoinMaskMatch(k, a, m);
    var e := a + 2 * m + 1;
    MaskAfterKept(k, a, e, JoinMask(k, 0), JoinMask(k, a), JoinMask(k, e));
  }

  lemma {:induction false} MaskAfterKept(k: seq<Kind>, a: nat, e: nat, mask: seq<bool>, rest: seq<bool>, tail: seq<bool>)
    requires a <= e <= |k| && mask == KeepAll(a) + rest && rest == SpaceFlags(k, a, e) + tail
    ensures forall p :: 0 <= p < a ==> mask[p]
    ensures forall p :: a <= p < e ==> mask[p] == (k[p] != Blank)
  {
    forall p | a <= p < e
      ensures mask[p] == (k[p] != Blank)
    {
      assert mask[p] == rest[p - a];
      assert rest[p - a] == SpaceFlags(k, a, e)[p - a];
    }
  }

  /** The longest valid run at `a` is the one the scan takes. */
  lemma {:induction false} LongestIsRunAt(k: seq<Kind>, a: nat, m: nat)
    requires ValidRun(k, a, m) && forall m': nat :: ValidRun(k, a, m') ==> m' <= m
    ensures a < |k| && RunAt(k, a) == Some(m)
  {
    RunAtLongest(k, a);
  }

  // ---------------------------------------------------------------------
  // Every match is joined
  // ---------------------------------------------------------------------

  /**
    What the repair keeps, position by position: it removes a character
    exactly when it is a `" "` lying strictly inside some match of the
    pattern, whichever match that is, and keeps every other character.
   */
  lemma {:induction false} JoinKeeps(s: string, p: nat)
    requires p < |s|
    ensures JoinMask(Kinds(s), 0)[p] <==> !(s[p] == ' ' && InRun(Kinds(s), p))
  {
    var k := Kinds(s);
    JoinMaskExact(k, p);
    assert k[p] == KindOf(s[p]);
  }

  /** `JoinKeeps` over the classification: a position is dropped exactly when it is a `" "` inside a match. */
  lemma {:induction false} JoinMaskExact(k: seq<Kind>, p: nat)
    requires p < |k|
    ensures JoinMask(k, 0)[p] <==> !(k[p] == Blank && InRun(k, p))
  {
    JoinMaskDrops(k, 0);
    if k[p] == Blank && InRun(k, p) {
      var a: nat, m: nat :| ValidRun(k, a, m) && a < p < a + 2 * m;
      RunSpaceDropped(k, 0, a, m, p);
    }
  }

  /**
    Every match of the pattern is joined, not only the leftmost one: its
    letters are kept and its `" "` characters removed.
   */
  lemma {:induction false} RunJoined(s: string, a: nat, m: nat)
    requires ValidRun(Kinds(s), a, m)
    ensures a + 2 * m < |s|
    ensures forall p :: a <= p <= a + 2 * m ==> (JoinMask(Kinds(s), 0)[p] <==> s[p] != ' ')
  {
    var k := Kinds(s);
    forall p | a <= p <= a + 2 * m
      ensures JoinMask(k, 0)[p] <==> s[p] != ' '
    {
      RunPointJoined(k, a, m, p);
      assert k[p] == KindOf(s[p]);
    }
  }

  /** One position of a match: kept exactly when it is not a `" "`. */
  lemma {:induction false} RunPointJoined(k: seq<Kind>, a: nat, m: nat, p: nat)
    requires ValidRun(k, a, m) && a <= p <= a + 2 * m
    ensures JoinMask(k, 0)[p] <==> k[p] != Blank
  {
    JoinMaskExact(k, p);
    if k[p] == Blank {
      assert PairAt(k, a, 0);
      assert a < p < a + 2 * m;
    }
  }

  /**
    A `" "` strictly inside a match starting at `a` is removed by the scan
    from any position `i <= a`: the scan either takes a match that covers
    it or reaches `a` and takes the longest match there.
   */
  lemma {:induction false} RunSpaceDropped(k: seq<Kind>, i: nat, a: nat, m: nat, p: nat)
    requires i <= a && ValidRun(k, a, m) && a < p < a + 2 * m && k[p] == Blank
    ensures p - i < |JoinMask(k, i)| && !JoinMask(k, i)[p - i]
    decreases a - i, 1
  {
    match RunAt(k, i)
    case None => DroppedAfterSkip(k, i, a, m, p);
    case Some(n) => DroppedAfterMatch(k, i, n, a, m, p);
  }

  lemma {:induction false} DroppedAfterSkip(k: seq<Kind>, i: nat, a: nat, m: nat, p: nat)
    requires i <= a && ValidRun(k, a, m) && a < p < a + 2 * m && k[p] == Blank
    requires RunAt(k, i).None?
    ensures p - i < |JoinMask(k, i)| && !JoinMask(k, i)[p - i]
    decreases a - i, 0
  {
    NoRunBefore(k, i, a, m);
    JoinMaskSkip(k, i);
    RunSpaceDropped(k, i + 1, a, m, p);
    KeptHead(JoinMask(k, i), JoinMask(k, i + 1), p - i);
  }

  /** Where no match starts, no valid run starts either, so the scan has not reached `a`. */
  lemma {:induction false} NoRunBefore(k: seq<Kind>, i: nat, a: nat, m: nat)
    requires i <= a && ValidRun(k, a, m) && RunAt(k, i).None?
    ensures i < a
  {
    RunAtLongest(k, i);
  }

  /** Past the kept first bit, a mask is its tail. */
  lemma {:induction false} KeptHead(mask: seq<bool>, rest: seq<bool>, j: nat)
    requires mask == [true] + rest && 0 < j <= |rest|
    ensures mask[j] == rest[j - 1]
  {
  }

  lemma {:induction false} DroppedAfterMatch(k: seq<Kind>, i: nat, n: nat, a: nat, m: nat, p: nat)
    requires i <= a && ValidRun(k, a, m) && a < p < a + 2 * m && k[p] == Blank
    requires RunAt(k, i) == Some(n)
    ensures p - i < |JoinMask(k, i)| && !JoinMask(k, i)[p - i]
    decreases a - i, 0
  {
    var e := i + 2 * n + 1;
    JoinMaskMatch(k, i, n);
    if e <= a {
      RunSpaceDropped(k, e, a, m, p);
      assert JoinMask(k, i)[p - i] == JoinMask(k, e)[p - e];
    } else {
      RunAtLongest(k, i);
      MatchCovers(k, i, n, a, m);
      assert JoinMask(k, i)[p - i] == SpaceFlags(k, i, e)[p - i];
    }
  }

  /**
    The longest match at `i` covers every match that starts inside it:
    both follow the same chain of letters and whitespace, so a match
    reaching further would make a longer one at `i`.
   */
  lemma {:induction false} MatchCovers(k: seq<Kind>, i: nat, n: nat, a: nat, m: nat)
    requires ValidRun(k, i, n) && forall n': nat :: ValidRun(k, i, n') ==> n' <= n
    requires ValidRun(k, a, m) && i <= a <= i + 2 * n
    ensures a + 2 * m <= i + 2 * n
  {
    assert PairAt(k, a, 0);
    LetterIsEven(k, i, n, a);
    var t: nat := (a - i) / 2;
    ExtendRun(k, i, n, t, m);
  }

  /** Within a match, letters sit at the even offsets only. */
  lemma {:induction false} LetterIsEven(k: seq<Kind>, i: nat, n: nat, a: nat)
    requires ValidRun(k, i, n) && i <= a <= i + 2 * n && k[a] == Letter
    ensures (a - i) % 2 == 0
  {
    var pair := PairAt(k, i, (a - i) / 2);
  }

  /** A match at `i` whose `t`-th letter starts another match extends to that match's end. */
  lemma {:induction false} ExtendRun(k: seq<Kind>, i: nat, n: nat, t: nat, m: nat)
    requires ValidRun(k, i, n) && t <= n && ValidRun(k, i + 2 * t, m)
    ensures ValidRun(k, i, t + m)
  {
    var a := i + 2 * t;
    forall u | 0 <= u < t + m
      ensures PairAt(k, i, u)
    {
      if u < t {
        assert PairAt(k, i, u);
      } else {
        assert PairAt(k, a, u - t);
      }
    }
  }
}
