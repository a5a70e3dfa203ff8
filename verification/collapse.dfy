/**
  The first two steps of `normalize_text`: `text.replace("’", "'")` and
  `re.sub(r"\s+", " ", text)`, which turns every maximal whitespace run into
  a single `" "`.
 */
module Collapsing {
  import opened Chars
  import opened Text
  import opened Deletions

  /** The typographic apostrophe U+2019 the normalizer replaces. */
  const RightQuote: char := '\U{2019}'

  function Requote(c: char): char {
    if c == RightQuote then '\'' else c
  }

  /** `s.replace("’", "'")` */
  function ReplaceQuote(s: string): (r: string)
    ensures |r| == |s|
    ensures forall j :: 0 <= j < |s| ==> r[j] == Requote(s[j])
    ensures RightQuote !in r
  {
    if |s| == 0 then [] else [Requote(s[0])] + ReplaceQuote(s[1..])
  }

  /** The replacement maps whitespace to whitespace, so it commutes with taking the non-whitespace characters. */
  lemma {:induction false} NonSpaceReplaceQuote(s: string)
    ensures NonSpace(ReplaceQuote(s)) == ReplaceQuote(NonSpace(s))
    decreases |s|
  {
    if |s| > 0 {
      var r := ReplaceQuote(s);
      NonSpaceReplaceQuote(s[1..]);
      assert r[1..] == ReplaceQuote(s[1..]);
      if IsSpace(s[0]) {
        assert NonSpace(s) == NonSpace(s[1..]);
      } else {
        assert NonSpace(s) == [s[0]] + NonSpace(s[1..]);
        assert ReplaceQuote(NonSpace(s))[1..] == ReplaceQuote(NonSpace(s[1..]));
      }
    }
  }

  /** `re.sub(r"\s+", " ", s[i..])`: each maximal whitespace run becomes one `" "`. */
  function Collapse(s: string, i: nat): (r: string)
    requires i <= |s|
    decreases |s| - i
  {
    if i == |s| then []
    else if IsSpace(s[i]) then [' '] + Collapse(s, SpanStart(s, i))
    else [s[i]] + Collapse(s, i + 1)
  }

  /** The collapsed text starts with whitespace exactly when the text does. */
  lemma {:induction false} CollapseHead(s: string, i: nat)
    requires i < |s|
    ensures var r := Collapse(s, i); |r| > 0 && (IsSpace(r[0]) <==> IsSpace(s[i]))
  {
  }

  /** After collapsing, no two whitespace characters are adjacent. */
  lemma {:induction false} CollapseNoDoubleSpace(s: string, i: nat)
    requires i <= |s|
    ensures NoDoubleSpace(Collapse(s, i))
    decreases |s| - i
  {
    if i < |s| {
      var next := if IsSpace(s[i]) then SpanStart(s, i) else i + 1;
      CollapseNoDoubleSpace(s, next);
      if next < |s| {
        CollapseHead(s, next);
      }
      ConsPairs(if IsSpace(s[i]) then ' ' else s[i], Collapse(s, next));
    }
  }

  /** After collapsing, every whitespace character is `" "`. */
  lemma {:induction false} CollapseOnlyBlanks(s: string, i: nat)
    requires i <= |s|
    ensures OnlyBlanks(Collapse(s, i))
    decreases |s| - i
  {
    if i < |s| {
      var next := if IsSpace(s[i]) then SpanStart(s, i) else i + 1;
      CollapseOnlyBlanks(s, next);
      ConsPairs(if IsSpace(s[i]) then ' ' else s[i], Collapse(s, next));
    }
  }

  /** Collapsing keeps the non-whitespace characters, in order. */
  lemma {:induction false} CollapseNonSpace(s: string, i: nat)
    requires i <= |s|
    ensures NonSpace(Collapse(s, i)) == NonSpace(s[i..])
    decreases |s| - i
  {
    if i < |s| {
      if IsSpace(s[i]) {
        var k := SpanStart(s, i);
        CollapseNonSpace(s, k);
        NonSpaceAppend([' '], Collapse(s, k));
        assert NonSpace([' ']) == [];
        SpanIsSpace(s, i);
        assert s[i..] == s[i..k] + s[k..];
        NonSpaceAppend(s[i..k], s[k..]);
        NonSpaceOfSpace(s[i..k]);
      } else {
        CollapseNonSpace(s, i + 1);
        NonSpaceAppend([s[i]], Collapse(s, i + 1));
        SliceCons(s, i);
        NonSpaceAppend([s[i]], s[i + 1..]);
      }
    }
  }

  /** The run `SpanStart` skips is whitespace. */
  lemma {:induction false} SpanIsSpace(s: string, i: nat)
    requires i <= |s|
    ensures AllSpace(s[i..SpanStart(s, i)])
  {
  }

  /** Collapsing introduces no character other than `" "`. */
  lemma {:induction false} CollapseChars(s: string, i: nat)
    requires i <= |s|
    ensures forall x :: x in Collapse(s, i) ==> x == ' ' || x in s[i..]
    decreases |s| - i
  {
    if i < |s| {
      var next := if IsSpace(s[i]) then SpanStart(s, i) else i + 1;
      CollapseChars(s, next);
      assert forall x :: x in s[next..] ==> x in s[i..] by {
        assert s[i..] == s[i..next] + s[next..];
      }
    }
  }

  /** A text with single `" "` separators only is left as it is. */
  lemma {:induction false} CollapseFixes(s: string, i: nat)
    requires i <= |s| && NoDoubleSpace(s) && OnlyBlanks(s)
    ensures Collapse(s, i) == s[i..]
    decreases |s| - i
  {
    if i < |s| {
      CollapseFixes(s, i + 1);
      if IsSpace(s[i]) {
        assert SpanStart(s, i) == i + 1;
      }
      SliceCons(s, i);
    }
  }

  /** Collapsing twice is collapsing once. */
  lemma {:induction false} CollapseIdempotent(s: string)
    ensures Collapse(Collapse(s, 0), 0) == Collapse(s, 0)
  {
    var r := Collapse(s, 0);
    CollapseNoDoubleSpace(s, 0);
    CollapseOnlyBlanks(s, 0);
    CollapseFixes(r, 0);
    assert r[0..] == r;
  }
}
