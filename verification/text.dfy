/** The optional value the searches return (Python's `None` or a value). */
module Optional {
  datatype Option<+T> = None | Some(value: T)
}

/**
  The Python string operations the two scrapers are built from, on
  `string` (= `seq<char>`): `str.strip`, `str.split(sep)`, `sep.join`,
  `str.splitlines`, and the "keep the stripped, non-empty lines" idiom both
  segmenters use.
 */
module Text {
  import opened Chars
  import opened Optional

  predicate AllSpace(s: string) {
    forall i :: 0 <= i < |s| ==> IsSpace(s[i])
  }

  /** No leading and no trailing whitespace. */
  predicate Trimmed(s: string) {
    |s| == 0 || (!IsSpace(s[0]) && !IsSpace(s[|s| - 1]))
  }

  /** `s` is `r` with the whitespace `s[..a]` before it and whitespace after it. */
  predicate PaddedAt(s: string, r: string, a: nat) {
    a + |r| <= |s| && s[a..a + |r|] == r && AllSpace(s[..a]) && AllSpace(s[a + |r|..])
  }

  /** `s` is `r` with whitespace added on both sides. */
  ghost predicate Padded(s: string, r: string) {
    exists a :: PaddedAt(s, r, a)
  }

  /** Where `str.lstrip()` cuts: the first non-whitespace position at or after `i`, or `|s|`. */
  function SpanStart(s: string, i: nat): (k: nat)
    requires i <= |s|
    ensures i <= k <= |s|
    ensures forall j :: i <= j < k ==> IsSpace(s[j])
    ensures k < |s| ==> !IsSpace(s[k])
    decreases |s| - i
  {
    if i < |s| && IsSpace(s[i]) then SpanStart(s, i + 1) else i
  }

  /** Where `str.rstrip()` cuts `s[lo..j]`: just after its last non-whitespace character, or `lo`. */
  function SpanEnd(s: string, lo: nat, j: nat): (k: nat)
    requires lo <= j <= |s|
    ensures lo <= k <= j
    ensures forall m :: k <= m < j ==> IsSpace(s[m])
    ensures k > lo ==> !IsSpace(s[k - 1])
    decreases j - lo
  {
    if j > lo && IsSpace(s[j - 1]) then SpanEnd(s, lo, j - 1) else j
  }

  /** `str.strip()`: no whitespace is left at either end. */
  function Strip(s: string): (r: string)
    ensures Trimmed(r)
  {
    var lo := SpanStart(s, 0);
    s[lo..SpanEnd(s, lo, |s|)]
  }

  /** `str.strip()` removes whitespace only, and only from the two ends. */
  lemma {:induction false} StripPadded(s: string)
    ensures Padded(s, Strip(s))
  {
    var lo := SpanStart(s, 0);
    var hi := SpanEnd(s, lo, |s|);
    assert PaddedAt(s, Strip(s), lo);
  }

  /** Stripping is determined by the trimmed core: any padding of a trimmed string strips back to it. */
  lemma {:induction false} StripUnique(s: string, r: string)
    requires Trimmed(r) && Padded(s, r)
    ensures Strip(s) == r
  {
    var a: nat :| PaddedAt(s, r, a);
    var lo := SpanStart(s, 0);
    var hi := SpanEnd(s, lo, |s|);
    if |r| == 0 {
      assert forall j :: 0 <= j < |s| ==> IsSpace(s[j]) by {
        forall j | 0 <= j < |s|
          ensures IsSpace(s[j])
        {
          if j < a {
            assert s[..a][j] == s[j];
          } else {
            assert s[a..][j - a] == s[j];
          }
        }
      }
      assert lo == |s|;
    } else {
      assert s[a] == r[0] && s[a + |r| - 1] == r[|r| - 1];
      assert lo == a;
      assert hi == a + |r|;
    }
  }

  /** The non-whitespace characters of `s`, in order. */
  function NonSpace(s: string): (r: string)
    ensures |r| <= |s|
    ensures forall i :: 0 <= i < |r| ==> !IsSpace(r[i])
  {
    if |s| == 0 then []
    else (if IsSpace(s[0]) then [] else [s[0]]) + NonSpace(s[1..])
  }

  lemma {:induction false} NonSpaceAppend(a: string, b: string)
    ensures NonSpace(a + b) == NonSpace(a) + NonSpace(b)
    decreases |a|
  {
    if |a| > 0 {
      var h := if IsSpace(a[0]) then [] else [a[0]];
      assert (a + b)[0] == a[0] && (a + b)[1..] == a[1..] + b;
      NonSpaceAppend(a[1..], b);
      assert NonSpace(a + b) == h + NonSpace(a[1..] + b);
      assert NonSpace(a) == h + NonSpace(a[1..]);
    } else {
      assert a + b == b;
    }
  }

  lemma {:induction false} NonSpaceOfSpace(w: string)
    requires AllSpace(w)
    ensures NonSpace(w) == []
    decreases |w|
  {
    if |w| > 0 {
      NonSpaceOfSpace(w[1..]);
    }
  }

  /** Stripping removes whitespace only. */
  lemma {:induction false} NonSpaceStrip(s: string)
    ensures NonSpace(Strip(s)) == NonSpace(s)
  {
    var r := Strip(s);
    StripPadded(s);
    var a: nat :| PaddedAt(s, r, a);
    var w1, w2 := s[..a], s[a + |r|..];
    assert s == w1 + r + w2 by {
      assert s[a..a + |r|] == r;
      assert s == s[..a] + s[a..a + |r|] + s[a + |r|..];
    }
    NonSpaceAppend(w1 + r, w2);
    NonSpaceAppend(w1, r);
    NonSpaceOfSpace(w1);
    NonSpaceOfSpace(w2);
  }

  /** Python's `s.split(sep)` for a one-character separator: never empty. */
  function Split(s: string, sep: char): (r: seq<string>)
    ensures |r| > 0
    decreases |s|
  {
    if |s| == 0 then [""]
    else
      var rest := Split(s[1..], sep);
      if s[0] == sep then [""] + rest
      else [[s[0]] + rest[0]] + rest[1..]
  }

  /** No piece of a split holds the separator. */
  lemma {:induction false} SplitPiecesLackSep(s: string, sep: char)
    ensures forall i :: 0 <= i < |Split(s, sep)| ==> sep !in Split(s, sep)[i]
    decreases |s|
  {
    if |s| > 0 {
      SplitPiecesLackSep(s[1..], sep);
    }
  }

  /** Python's `sep.join(parts)` for a one-character separator. */
  function Join(sep: char, parts: seq<string>): (r: string)
    ensures |parts| == 0 ==> r == ""
    decreases |parts|
  {
    if |parts| == 0 then ""
    else if |parts| == 1 then parts[0]
    else parts[0] + [sep] + Join(sep, parts[1..])
  }

  /** Splitting a piece with no separator in front of a separator yields that piece first. */
  lemma {:induction false} SplitAfterPiece(p: string, rest: string, sep: char)
    requires sep !in p
    ensures Split(p + [sep] + rest, sep) == [p] + Split(rest, sep)
    decreases |p|
  {
    if |p| == 0 {
      assert p + [sep] + rest == [sep] + rest;
      assert ([sep] + rest)[1..] == rest;
    } else {
      assert (p + [sep] + rest)[1..] == p[1..] + [sep] + rest;
      SplitAfterPiece(p[1..], rest, sep);
      assert [p[0]] + p[1..] == p;
    }
  }

  lemma {:induction false} SplitWithoutSep(p: string, sep: char)
    requires sep !in p
    ensures Split(p, sep) == [p]
    decreases |p|
  {
    if |p| > 0 {
      SplitWithoutSep(p[1..], sep);
      assert [p[0]] + p[1..] == p;
    }
  }

  /** Round trip: splitting a join recovers the pieces, when no piece holds the separator. */
  lemma {:induction false} SplitJoin(parts: seq<string>, sep: char)
    requires |parts| > 0
    requires forall i :: 0 <= i < |parts| ==> sep !in parts[i]
    ensures Split(Join(sep, parts), sep) == parts
    decreases |parts|
  {
    if |parts| == 1 {
      SplitWithoutSep(parts[0], sep);
    } else {
      SplitJoin(parts[1..], sep);
      SplitAfterPiece(parts[0], Join(sep, parts[1..]), sep);
      assert [parts[0]] + parts[1..] == parts;
    }
  }

  /** Round trip: joining the pieces of a split gives the string back. */
  lemma {:induction false} JoinSplit(s: string, sep: char)
    ensures Join(sep, Split(s, sep)) == s
    decreases |s|
  {
    if |s| > 0 {
      JoinSplit(s[1..], sep);
      var rest := Split(s[1..], sep);
      if s[0] == sep {
        assert ([""] + rest)[1..] == rest;
      } else if |rest| == 1 {
      } else {
        assert ([[s[0]] + rest[0]] + rest[1..])[1..] == rest[1..];
      }
    }
  }

  /** Splitting after one more separator opens a new empty last piece. */
  lemma {:induction false} SplitSnocSep(s: string, sep: char)
    ensures Split(s + [sep], sep) == Split(s, sep) + [""]
    decreases |s|
  {
    if |s| == 0 {
      assert [sep][1..] == "";
    } else {
      assert (s + [sep])[1..] == s[1..] + [sep];
      SplitSnocSep(s[1..], sep);
    }
  }

  /** Splitting after one more non-separator character extends the last piece. */
  lemma {:induction false} SplitSnocOther(s: string, c: char, sep: char)
    requires c != sep
    ensures Split(s + [c], sep) == DropLast(Split(s, sep)) + [Last(Split(s, sep)) + [c]]
    decreases |s|
  {
    if |s| == 0 {
      SplitOneChar(c, sep);
      assert s + [c] == [c];
    } else {
      var t := s[1..];
      assert (s + [c])[1..] == t + [c];
      SplitSnocOther(t, c, sep);
      var rest := Split(t, sep);
      var rest' := Split(t + [c], sep);
      if s[0] == sep {
        assert Split(s + [c], sep) == [""] + rest';
        assert Split(s, sep) == [""] + rest;
        SplitSnocPrefix(rest, rest', c);
      } else {
        SplitConsOther(s[0], t + [c], sep);
        SplitConsOther(s[0], t, sep);
        SplitSnocExtend(s[0], rest, rest', c);
      }
    }
  }

  lemma {:induction false} SplitOneChar(c: char, sep: char)
    requires c != sep
    ensures Split([c], sep) == [[c]]
  {
    assert [c][1..] == "";
    assert Split("", sep) == [""];
    assert [c] + "" == [c];
  }

  lemma {:induction false} SplitConsOther(x: char, t: string, sep: char)
    requires x != sep
    ensures Split([x] + t, sep) == [[x] + Split(t, sep)[0]] + Split(t, sep)[1..]
  {
    assert ([x] + t)[1..] == t;
  }

  lemma {:induction false} SplitSnocPrefix(rest: seq<string>, rest': seq<string>, c: char)
    requires |rest| > 0
    requires rest' == DropLast(rest) + [Last(rest) + [c]]
    ensures [""] + rest' == DropLast([""] + rest) + [Last([""] + rest) + [c]]
  {
    assert DropLast([""] + rest) == [""] + DropLast(rest);
  }

  lemma {:induction false} SplitSnocExtend(x: char, rest: seq<string>, rest': seq<string>, c: char)
    requires |rest| > 0
    requires rest' == DropLast(rest) + [Last(rest) + [c]]
    ensures [[x] + rest'[0]] + rest'[1..]
         == DropLast([[x] + rest[0]] + rest[1..]) + [Last([[x] + rest[0]] + rest[1..]) + [c]]
  {
    if |rest| == 1 {
      assert rest' == [rest[0] + [c]];
      assert [x] + (rest[0] + [c]) == ([x] + rest[0]) + [c];
    } else {
      assert rest'[0] == rest[0];
      assert rest'[1..] == DropLast(rest[1..]) + [Last(rest) + [c]];
    }
  }

  function Last<T>(xs: seq<T>): T
    requires |xs| > 0
  {
    xs[|xs| - 1]
  }

  function DropLast<T>(xs: seq<T>): seq<T>
    requires |xs| > 0
  {
    xs[..|xs| - 1]
  }

  /**
    Python's `s.splitlines()`: breaks at every line boundary (a `\r\n` pair is
    one break) and yields no trailing empty line.
   */
  function SplitLines(s: string): (r: seq<string>)
    ensures forall i, j :: 0 <= i < |r| && 0 <= j < |r[i]| ==> !IsLineBoundary(r[i][j])
    decreases |s|
  {
    if |s| == 0 then []
    else
      var k := LineEnd(s, 0);
      if k == |s| then [s]
      else
        var next := if s[k] == '\r' && k + 1 < |s| && s[k + 1] == '\n' then k + 2 else k + 1;
        [s[..k]] + SplitLines(s[next..])
  }

  /** The index of the first line boundary at or after `i`, or `|s|`. */
  function LineEnd(s: string, i: nat): (k: nat)
    requires i <= |s|
    ensures i <= k <= |s|
    ensures forall j :: i <= j < k ==> !IsLineBoundary(s[j])
    ensures k < |s| ==> IsLineBoundary(s[k])
    decreases |s| - i
  {
    if i == |s| || IsLineBoundary(s[i]) then i else LineEnd(s, i + 1)
  }

  /** `[l.strip() for l in lines if l.strip()]`: the stripped lines that are not blank. */
  function NonBlankLines(lines: seq<string>): (r: seq<string>)
    ensures |r| <= |lines|
    ensures forall i :: 0 <= i < |r| ==> |r[i]| > 0 && Trimmed(r[i])
  {
    if |lines| == 0 then [] else Kept(lines[0]) + NonBlankLines(lines[1..])
  }

  /** What one line contributes to `NonBlankLines`: its stripped form, unless that is empty. */
  function Kept(line: string): (r: seq<string>)
    ensures |r| <= 1
    ensures forall i :: 0 <= i < |r| ==> |r[i]| > 0 && Trimmed(r[i])
  {
    var l := Strip(line);
    if l == "" then [] else [l]
  }

  lemma {:induction false} NonBlankLinesAppend(a: seq<string>, b: seq<string>)
    ensures NonBlankLines(a + b) == NonBlankLines(a) + NonBlankLines(b)
    decreases |a|
  {
    if |a| == 0 {
      EmptyAppend(a, b);
    } else {
      TailAppend(a, b);
      NonBlankLinesAppend(a[1..], b);
      AppendAssoc(Kept(a[0]), NonBlankLines(a[1..]), NonBlankLines(b));
    }
  }

  /** A string ends with `?`. */
  predicate EndsWithQuestionMark(s: string) {
    |s| > 0 && s[|s| - 1] == '?'
  }

  /** The segmenters' question test: the stripped line ends with `?`. */
  predicate IsQuestionLine(line: string) {
    EndsWithQuestionMark(Strip(line))
  }

  /** `w` occurs in `s` at position `i`. */
  predicate OccursAt(s: string, w: string, i: nat) {
    i + |w| <= |s| && s[i..i + |w|] == w
  }

  /** `w` occurs somewhere in `s`. */
  ghost predicate Occurs(s: string, w: string) {
    exists i: nat :: OccursAt(s, w, i)
  }

  /** `s.find(w, from)`: the first occurrence of `w` at or after `from`, if any. */
  function Find(s: string, w: string, from: nat): (r: Option<nat>)
    requires from <= |s|
    ensures r.Some? ==> from <= r.value && OccursAt(s, w, r.value)
    ensures r.Some? ==> forall i: nat :: from <= i < r.value ==> !OccursAt(s, w, i)
    ensures r.None? ==> forall i: nat :: from <= i ==> !OccursAt(s, w, i)
    decreases |s| - from
  {
    if OccursAt(s, w, from) then Some(from)
    else if from + |w| >= |s| then None
    else Find(s, w, from + 1)
  }

  /** Any first occurrence is the one `Find` reports. */
  lemma {:induction false} FindFirst(s: string, w: string, i: nat)
    requires OccursAt(s, w, i)
    requires forall j: nat :: j < i ==> !OccursAt(s, w, j)
    ensures Find(s, w, 0) == Some(i)
  {
  }

  /** Appending whitespace does not change the stripped form. */
  lemma {:induction false} StripSnocSpace(s: string, c: char)
    requires IsSpace(c)
    ensures Strip(s + [c]) == Strip(s)
  {
    var r := Strip(s);
    StripPadded(s);
    var a: nat :| PaddedAt(s, r, a);
    PaddedSnoc(s, r, a, c);
    StripUnique(s + [c], r);
  }

  /** Prepending whitespace does not change the stripped form. */
  lemma {:induction false} StripConsSpace(c: char, s: string)
    requires IsSpace(c)
    ensures Strip([c] + s) == Strip(s)
  {
    var r := Strip(s);
    StripPadded(s);
    var a: nat :| PaddedAt(s, r, a);
    PaddedCons(c, s, r, a);
    StripUnique([c] + s, r);
  }

  lemma {:induction false} PaddedSnoc(s: string, r: string, a: nat, c: char)
    requires PaddedAt(s, r, a) && IsSpace(c)
    ensures PaddedAt(s + [c], r, a)
  {
    var t := s + [c];
    assert t[a..a + |r|] == s[a..a + |r|];
    assert t[..a] == s[..a];
    assert t[a + |r|..] == s[a + |r|..] + [c];
  }

  lemma {:induction false} PaddedCons(c: char, s: string, r: string, a: nat)
    requires PaddedAt(s, r, a) && IsSpace(c)
    ensures PaddedAt([c] + s, r, a + 1)
  {
    var t := [c] + s;
    assert t[a + 1..a + 1 + |r|] == s[a..a + |r|];
    assert t[..a + 1] == [c] + s[..a];
    assert t[a + 1 + |r|..] == s[a + |r|..];
  }

  /** Replacing the first line by one that strips to the same text keeps the non-blank lines. */
  lemma {:induction false} NonBlankLinesReplaceHead(x: string, lines: seq<string>)
    requires |lines| > 0 && Strip(x) == Strip(lines[0])
    ensures NonBlankLines([x] + lines[1..]) == NonBlankLines(lines)
  {
    HeadTail(lines);
    NonBlankLinesCons(x, lines[0], lines[1..]);
  }

  lemma {:induction false} NonBlankLinesCons(l1: string, l2: string, rest: seq<string>)
    requires Strip(l1) == Strip(l2)
    ensures NonBlankLines([l1] + rest) == NonBlankLines([l2] + rest)
  {
    ConsTail(l1, rest);
    ConsTail(l2, rest);
  }

  /** A blank first line contributes nothing. */
  lemma {:induction false} NonBlankLinesConsBlank(rest: seq<string>)
    ensures NonBlankLines([""] + rest) == NonBlankLines(rest)
  {
    ConsTail("", rest);
  }

  /** A blank last line contributes nothing. */
  lemma {:induction false} NonBlankLinesSnocBlank(lines: seq<string>)
    ensures NonBlankLines(lines + [""]) == NonBlankLines(lines)
  {
    NonBlankLinesAppend(lines, [""]);
    NonBlankLinesConsBlank([]);
    AppendEmpty([""]);
    AppendEmpty(NonBlankLines(lines));
  }

  lemma {:induction false} SplitConsSep(t: string, sep: char)
    ensures Split([sep] + t, sep) == [""] + Split(t, sep)
  {
    ConsTail(sep, t);
  }

  /** One whitespace character in front of a text adds an empty line or pads its first line. */
  lemma {:induction false} NonBlankSplitConsOne(c: char, t: string, sep: char)
    requires IsSpace(c)
    ensures NonBlankLines(Split([c] + t, sep)) == NonBlankLines(Split(t, sep))
  {
    var rest := Split(t, sep);
    if c == sep {
      SplitConsSep(t, sep);
      NonBlankLinesConsBlank(rest);
    } else {
      SplitConsOther(c, t, sep);
      StripConsSpace(c, rest[0]);
      NonBlankLinesReplaceHead([c] + rest[0], rest);
    }
  }

  /** Whitespace in front of a text only adds blank lines or padding to its first line. */
  lemma {:induction false} NonBlankSplitConsSpace(w: string, x: string, sep: char)
    requires AllSpace(w)
    ensures NonBlankLines(Split(w + x, sep)) == NonBlankLines(Split(x, sep))
    decreases |w|
  {
    if |w| > 0 {
      var c, w' := w[0], w[1..];
      ConsAppend(w, x);
      AllSpaceTail(w);
      NonBlankSplitConsOne(c, w' + x, sep);
      NonBlankSplitConsSpace(w', x, sep);
    } else {
      EmptyAppend(w, x);
    }
  }

  lemma {:induction false} AllSpaceTail(w: string)
    requires |w| > 0 && AllSpace(w)
    ensures IsSpace(w[0]) && AllSpace(w[1..])
  {
  }

  /** One whitespace character after a text adds an empty line or pads its last line. */
  lemma {:induction false} NonBlankSplitSnocOne(t: string, c: char, sep: char)
    requires IsSpace(c)
    ensures NonBlankLines(Split(t + [c], sep)) == NonBlankLines(Split(t, sep))
  {
    var ls := Split(t, sep);
    if c == sep {
      SplitSnocSep(t, sep);
      NonBlankLinesSnocBlank(ls);
    } else {
      SplitSnocOther(t, c, sep);
      StripSnocSpace(Last(ls), c);
      NonBlankLinesAppend(DropLast(ls), [Last(ls) + [c]]);
      NonBlankLinesAppend(DropLast(ls), [Last(ls)]);
      NonBlankLinesCons(Last(ls) + [c], Last(ls), []);
      AppendEmpty([Last(ls) + [c]]);
      AppendEmpty([Last(ls)]);
      DropLastLast(ls);
    }
  }

  /** Whitespace after a text only adds blank lines or padding to its last line. */
  lemma {:induction false} NonBlankSplitSnocSpace(x: string, w: string, sep: char)
    requires AllSpace(w)
    ensures NonBlankLines(Split(x + w, sep)) == NonBlankLines(Split(x, sep))
    decreases |w|
  {
    if |w| > 0 {
      var w' := DropLast(w);
      SnocAppend(x, w);
      NonBlankSplitSnocOne(x + w', Last(w), sep);
      NonBlankSplitSnocSpace(x, w', sep);
    } else {
      EmptyAppend(w, x);
    }
  }

  /** `s` is its stripped form with whitespace on either side. */
  lemma {:induction false} StripParts(s: string) returns (w1: string, w2: string)
    ensures AllSpace(w1) && AllSpace(w2) && s == w1 + (Strip(s) + w2)
  {
    var r := Strip(s);
    StripPadded(s);
    var a: nat :| PaddedAt(s, r, a);
    w1, w2 := s[..a], s[a + |r|..];
    PaddedParts(s, r, a);
  }

  lemma {:induction false} PaddedParts(s: string, r: string, a: nat)
    requires PaddedAt(s, r, a)
    ensures s == s[..a] + (r + s[a + |r|..])
  {
    SliceThree(s, a, a + |r|);
  }

  /** Stripping a text before splitting it into lines keeps its non-blank lines. */
  lemma {:induction false} NonBlankSplitStrip(s: string, sep: char)
    ensures NonBlankLines(Split(Strip(s), sep)) == NonBlankLines(Split(s, sep))
  {
    var w1, w2 := StripParts(s);
    NonBlankSplitConsSpace(w1, Strip(s) + w2, sep);
    NonBlankSplitSnocSpace(Strip(s), w2, sep);
  }

  // Sequence identities, kept out of the contexts above where they are costly to rediscover.

  lemma {:induction false} SliceThree<T>(s: seq<T>, i: nat, j: nat)
    requires i <= j <= |s|
    ensures s == s[..i] + (s[i..j] + s[j..])
  {
  }

  lemma {:induction false} SliceSnoc<T>(s: seq<T>, i: nat, j: nat)
    requires i <= j < |s|
    ensures s[i..j] + [s[j]] == s[i..j + 1]
  {
  }

  lemma {:induction false} HeadTail<T>(s: seq<T>)
    requires |s| > 0
    ensures [s[0]] + s[1..] == s
  {
  }

  lemma {:induction false} ConsTail<T>(x: T, s: seq<T>)
    ensures ([x] + s)[1..] == s && ([x] + s)[0] == x
  {
  }

  lemma {:induction false} EmptyAppend<T>(w: seq<T>, x: seq<T>)
    requires |w| == 0
    ensures w + x == x && x + w == x
  {
  }

  lemma {:induction false} AppendEmpty<T>(s: seq<T>)
    ensures s + [] == s
  {
  }

  lemma {:induction false} DropLastLast<T>(s: seq<T>)
    requires |s| > 0
    ensures DropLast(s) + [Last(s)] == s
  {
  }

  lemma {:induction false} ConsAppend<T>(w: seq<T>, x: seq<T>)
    requires |w| > 0
    ensures w + x == [w[0]] + (w[1..] + x)
  {
  }

  lemma {:induction false} TailAppend<T>(a: seq<T>, b: seq<T>)
    requires |a| > 0
    ensures (a + b)[0] == a[0] && (a + b)[1..] == a[1..] + b
  {
  }

  lemma {:induction false} AppendAssoc<T>(x: seq<T>, y: seq<T>, z: seq<T>)
    ensures x + (y + z) == (x + y) + z
  {
  }

  lemma {:induction false} SnocAppend<T>(x: seq<T>, w: seq<T>)
    requires |w| > 0
    ensures x + w == (x + DropLast(w)) + [Last(w)]
  {
  }
}
