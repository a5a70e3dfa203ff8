/**
  The Ministry of Justice FAQ scraper: the FAQ block lies between a
  "Foire aux questions" heading and the "Structures du Ministère de la
  Justice" footer; inside it every line whose stripped form ends with `?`
  opens a question, and the non-blank lines up to the next question line
  form its answer, joined with newlines. The segmenter rebuilds the block
  with a newline after every line and cuts it at character offsets; the
  model follows those offsets and proves that they cut exactly the lines
  between two question lines.
 */
module Justice {
  import opened Chars
  import opened Text
  import opened Optional
  import opened Patterns
  import opened Blocks

  /** `Foire\s+aux\s+questions`, searched with `re.IGNORECASE`. */
  function StartMarker(): Pattern {
    SpacedWords(["Foire", "aux", "questions"], true)
  }

  /** The footer the block stops at, found with a case-sensitive `str.find`. */
  const StopMarker: string := "Structures du Ministère de la Justice"

  function StopPattern(): Pattern {
    Literal(StopMarker, false)
  }

  lemma {:induction false} MarkersSeparated()
    ensures Separated(StartMarker()) && Separated(StopPattern()) && BeginsWithLiteral(StopPattern())
  {
    SpacedWordsSeparated(["Foire", "aux", "questions"], true);
    LiteralSeparated(StopMarker, false);
  }

  /**
    `extract_faq_text`: the stripped text after the first start-marker
    match, up to the first later occurrence of the footer; empty when there
    is no start marker.
   */
  function ExtractFaqText(fullText: string): (r: string)
    ensures NoMatchFrom(StartMarker(), fullText, 0) ==> r == ""
    ensures forall m :: IsLeftmostMatch(StartMarker(), fullText, 0, m) ==>
      Padded(CutAtFirst(fullText[m.end..], StopMarker), r)
    ensures Trimmed(r)
    ensures !Occurs(r, StopMarker)
  {
    MarkersSeparated();
    var r := Isolate(fullText, StartMarker(), StopPattern());
    forall m | IsLeftmostMatch(StartMarker(), fullText, 0, m)
      ensures Padded(CutAtFirst(fullText[m.end..], StopMarker), r)
    {
      LiteralCut(fullText, m.end, StopMarker, r);
    }
    FooterAbsent(r);
    r
  }

  lemma {:induction false} FooterAbsent(r: string)
    requires forall i, j :: 0 <= i <= j <= |r| ==> !Accepts(StopPattern(), r[i..j])
    ensures !Occurs(r, StopMarker)
  {
    forall i: nat | OccursAt(r, StopMarker, i)
      ensures false
    {
      LiteralAcceptsExactly(StopMarker, r[i..i + |StopMarker|]);
    }
  }

  /** One extracted pair. */
  datatype QA = QA(question: string, answer: string)

  /** One entry of the segmenter's `offsets` list: a line and where it sits in the rebuilt text. */
  datatype Offset = Offset(start: nat, end: nat, line: string)

  /** One entry of the segmenter's `questions` list. */
  datatype QuestionEntry = QuestionEntry(text: string, start: nat, end: nat)

  /** `"".join(line + "\n" for line in lines)`. */
  function Rebuild(lines: seq<string>): (r: string)
    ensures |lines| == 0 ==> r == ""
  {
    if |lines| == 0 then "" else Rebuild(DropLast(lines)) + Last(lines) + "\n"
  }

  /** The offset at which line `k` starts in the rebuilt text. */
  function LineStart(lines: seq<string>, k: nat): nat
    requires k <= |lines|
  {
    |Rebuild(lines[..k])|
  }

  /** The positions `k` with `flags[k]`, in increasing order. */
  function Positions(flags: seq<bool>): (r: seq<nat>)
    ensures forall i :: 0 <= i < |r| ==> r[i] < |flags| && flags[r[i]]
    ensures forall i, j :: 0 <= i < j < |r| ==> r[i] < r[j]
    ensures forall k :: 0 <= k < |flags| && flags[k] ==> k in r
  {
    if |flags| == 0 then []
    else Positions(DropLast(flags)) + (if Last(flags) then [|flags| - 1] else [])
  }

  /** Which lines are question lines. */
  function QuestionFlags(lines: seq<string>): (r: seq<bool>)
    ensures |r| == |lines|
    ensures forall k :: 0 <= k < |lines| ==> r[k] == IsQuestionLine(lines[k])
  {
    seq(|lines|, k requires 0 <= k < |lines| => IsQuestionLine(lines[k]))
  }

  /** The positions of the question lines, in document order. */
  function QuestionIndices(lines: seq<string>): (r: seq<nat>)
    ensures forall i :: 0 <= i < |r| ==> r[i] < |lines| && IsQuestionLine(lines[r[i]])
    ensures forall i, j :: 0 <= i < j < |r| ==> r[i] < r[j]
    ensures forall k :: 0 <= k < |lines| && IsQuestionLine(lines[k]) ==> k in r
  {
    Positions(QuestionFlags(lines))
  }

  /** Where the answer of question `i` ends: at the next question line, or at the end of the block. */
  function AnswerEnd(lines: seq<string>, qs: seq<nat>, i: nat): nat
    requires i < |qs|
  {
    if i + 1 < |qs| then qs[i + 1] else |lines|
  }

  /** Lines 117-121 of the source: strip the answer block, then keep its stripped, non-blank lines. */
  function CleanAnswer(block: string): string {
    Join('\n', NonBlankLines(Split(Strip(block), '\n')))
  }

  /** Increasing positions below `n`. */
  predicate Ascending(qs: seq<nat>, n: nat) {
    && (forall i :: 0 <= i < |qs| ==> qs[i] < n)
    && (forall i, j :: 0 <= i < j < |qs| ==> qs[i] < qs[j])
  }

  /** The pair of the question line at `qs[i]`: the stripped line, and the non-blank lines up to the next one. */
  function PairAt(lines: seq<string>, qs: seq<nat>, i: nat): QA
    requires Ascending(qs, |lines|) && i < |qs|
  {
    QA(Strip(lines[qs[i]]), Join('\n', NonBlankLines(lines[qs[i] + 1..AnswerEnd(lines, qs, i)])))
  }

  /**
    What `extract_qa_pairs` computes from the lines of the FAQ block: one pair
    per question line, in document order; the question is the stripped line
    and ends with `?`; the answer is the stripped non-blank lines strictly
    between it and the next question line (or the end of the block), joined
    with newlines, and may be empty.
   */
  function Segment(lines: seq<string>): seq<QA> {
    SegmentAt(lines, QuestionIndices(lines))
  }

  /** The pairs of the question lines at positions `qs`. */
  function SegmentAt(lines: seq<string>, qs: seq<nat>): seq<QA>
    requires Ascending(qs, |lines|)
  {
    seq(|qs|, i requires 0 <= i < |qs| => PairAt(lines, qs, i))
  }

  /**
    The pairs of `Segment`, one per question line in document order: the
    question is the stripped line and ends with `?`, the answer joins the
    stripped non-blank lines strictly between it and the next question line.
   */
  lemma {:induction false} SegmentPairs(lines: seq<string>)
    ensures var qs, r := QuestionIndices(lines), Segment(lines);
      && |r| == |qs|
      && forall i :: 0 <= i < |r| ==>
        && r[i].question == Strip(lines[qs[i]])
        && EndsWithQuestionMark(r[i].question)
        && r[i].answer == Join('\n', NonBlankLines(lines[qs[i] + 1..AnswerEnd(lines, qs, i)]))
  {
  }

  /**
    A block yields no pair exactly when none of its lines is a question
    line; otherwise every line before the first question line and every
    answer line is a plain line, so no question is swallowed by an answer.
   */
  lemma {:induction false} QuestionLinesSeparate(lines: seq<string>)
    ensures var qs := QuestionIndices(lines);
      && (|Segment(lines)| == 0 <==> forall k :: 0 <= k < |lines| ==> !IsQuestionLine(lines[k]))
      && (forall k :: 0 <= k < |lines| && (|qs| == 0 || k < qs[0]) ==> !IsQuestionLine(lines[k]))
      && (forall i, k :: 0 <= i < |qs| && qs[i] < k < AnswerEnd(lines, qs, i) ==> !IsQuestionLine(lines[k]))
  {
    var qs := QuestionIndices(lines);
    SegmentLength(lines);
    forall k | 0 <= k < |lines| && IsQuestionLine(lines[k])
      ensures |qs| > 0 && qs[0] <= k
      ensures forall i :: 0 <= i < |qs| && qs[i] < k ==> AnswerEnd(lines, qs, i) <= k
    {
      QuestionLineBounds(lines, qs, k);
    }
  }

  /** One pair per question line. */
  lemma {:induction false} SegmentLength(lines: seq<string>)
    ensures |Segment(lines)| == |QuestionIndices(lines)|
  {
  }

  /**
    A question line at `k` comes no earlier than the first question line,
    and every answer that starts before it ends at it or earlier.
   */
  lemma {:induction false} QuestionLineBounds(lines: seq<string>, qs: seq<nat>, k: nat)
    requires forall a, b :: 0 <= a < b < |qs| ==> qs[a] < qs[b]
    requires k in qs
    ensures |qs| > 0 && qs[0] <= k
    ensures forall i :: 0 <= i < |qs| && qs[i] < k ==> AnswerEnd(lines, qs, i) <= k
  {
    var j :| 0 <= j < |qs| && qs[j] == k;
    assert j == 0 || qs[0] < qs[j];
    forall i | 0 <= i < |qs| && qs[i] < k
      ensures AnswerEnd(lines, qs, i) <= k
    {
      BetweenConsecutive(qs, i, j);
    }
  }

  /** In an increasing list no entry lies strictly between two neighbours. */
  lemma {:induction false} BetweenConsecutive(qs: seq<nat>, i: nat, j: nat)
    requires forall a, b :: 0 <= a < b < |qs| ==> qs[a] < qs[b]
    requires i < |qs| && j < |qs| && qs[i] < qs[j]
    ensures i + 1 < |qs| && qs[i + 1] <= qs[j]
  {
    if j > i + 1 {
      assert qs[i + 1] < qs[j];
    }
  }

  /**
    `extract_qa_pairs`, following the source's offset bookkeeping: cutting
    the rebuilt text between question offsets yields exactly the pairs of
    `Segment`.
   */
  method ExtractQaPairs(fullText: string) returns (pairs: seq<QA>)
    ensures pairs == Segment(Split(ExtractFaqText(fullText), '\n'))
  {
    var faqPart := ExtractFaqText(fullText);
    if faqPart == "" {
      NoLinesNoQuestions();
      return [];
    }
    var lines := Split(faqPart, '\n');
    SplitPiecesLackSep(faqPart, '\n');
    var offsets, rebuilt := ComputeOffsets(lines);
    var questions := CollectQuestions(lines, offsets);
    if |questions| == 0 {
      return [];
    }
    pairs := PairUp(lines, rebuilt, questions, QuestionIndices(lines));
  }

  lemma {:induction false} NoLinesNoQuestions()
    ensures Segment(Split("", '\n')) == []
  {
    assert Split("", '\n') == [""];
    assert Strip("") == "";
  }

  /** Lines 80-89 of the source: each line's span in the text rebuilt with a newline after every line. */
  method ComputeOffsets(lines: seq<string>) returns (offsets: seq<Offset>, rebuilt: string)
    ensures rebuilt == Rebuild(lines)
    ensures |offsets| == |lines|
    ensures forall j :: 0 <= j < |lines| ==> offsets[j] == Offset(LineStart(lines, j), LineStart(lines, j + 1), lines[j])
  {
    offsets := [];
    rebuilt := "";
    var pos := 0;
    for k := 0 to |lines|
      invariant |offsets| == k
      invariant rebuilt == Rebuild(lines[..k]) && pos == |rebuilt|
      invariant forall j :: 0 <= j < k ==> offsets[j] == Offset(LineStart(lines, j), LineStart(lines, j + 1), lines[j])
    {
      var lineWithNl := lines[k] + "\n";
      PrefixStep(lines, k);
      offsets := offsets + [Offset(pos, pos + |lineWithNl|, lines[k])];
      rebuilt := rebuilt + lineWithNl;
      pos := pos + |lineWithNl|;
    }
    assert lines[..|lines|] == lines;
  }

  /** Lines 92-99 of the source: the question lines, stripped, with their spans. */
  method CollectQuestions(lines: seq<string>, offsets: seq<Offset>) returns (questions: seq<QuestionEntry>)
    requires |offsets| == |lines|
    requires forall j :: 0 <= j < |lines| ==> offsets[j] == Offset(LineStart(lines, j), LineStart(lines, j + 1), lines[j])
    ensures questions == EntriesOf(lines, QuestionIndices(lines))
  {
    var flags := QuestionFlags(lines);
    questions := [];
    for k := 0 to |offsets|
      invariant questions == EntriesOf(lines, Positions(flags[..k]))
    {
      var o := offsets[k];
      assert o == Offset(LineStart(lines, k), LineStart(lines, k + 1), lines[k]);
      ghost var before := questions;
      if EndsWithQuestionMark(Strip(o.line)) {
        questions := questions + [QuestionEntry(Strip(o.line), o.start, o.end)];
      }
      CollectStep(lines, flags, k, before, questions);
    }
    assert flags[..|offsets|] == flags;
  }

  /** One more line: a question line adds its entry, any other line adds nothing. */
  lemma {:induction false} CollectStep(lines: seq<string>, flags: seq<bool>, k: nat, before: seq<QuestionEntry>, after: seq<QuestionEntry>)
    requires flags == QuestionFlags(lines) && k < |lines|
    requires before == EntriesOf(lines, Positions(flags[..k]))
    requires after == if IsQuestionLine(lines[k]) then before + [EntryOf(lines, k)] else before
    ensures after == EntriesOf(lines, Positions(flags[..k + 1]))
  {
    PositionsStep(flags, k);
    if IsQuestionLine(lines[k]) {
      EntriesOfSnoc(lines, Positions(flags[..k]), k);
    }
  }

  /** The `questions` entries of the lines at positions `ps`. */
  function EntriesOf(lines: seq<string>, ps: seq<nat>): (r: seq<QuestionEntry>)
    requires forall i :: 0 <= i < |ps| ==> ps[i] < |lines|
    ensures |r| == |ps|
    ensures forall i :: 0 <= i < |ps| ==> r[i] == EntryOf(lines, ps[i])
  {
    if |ps| == 0 then []
    else
      var init := DropLast(ps);
      assert forall i :: 0 <= i < |init| ==> init[i] == ps[i];
      var front := EntriesOf(lines, init);
      var r := front + [EntryOf(lines, Last(ps))];
      assert forall i :: 0 <= i < |ps| ==> r[i] == EntryOf(lines, ps[i]) by {
        forall i | 0 <= i < |ps|
          ensures r[i] == EntryOf(lines, ps[i])
        {
          if i < |init| {
            assert r[i] == front[i] && init[i] == ps[i];
          }
        }
      }
      r
  }

  lemma {:induction false} EntriesOfSnoc(lines: seq<string>, ps: seq<nat>, k: nat)
    requires forall i :: 0 <= i < |ps| ==> ps[i] < |lines|
    requires k < |lines|
    ensures EntriesOf(lines, ps + [k]) == EntriesOf(lines, ps) + [EntryOf(lines, k)]
  {
    assert DropLast(ps + [k]) == ps;
  }

  /** Lines 106-126 of the source: each question with the cleaned block up to the next question. */
  method PairUp(lines: seq<string>, rebuilt: string, questions: seq<QuestionEntry>, ghost qs: seq<nat>)
    returns (pairs: seq<QA>)
    requires rebuilt == Rebuild(lines)
    requires forall i :: 0 <= i < |lines| ==> '\n' !in lines[i]
    requires Ascending(qs, |lines|) && questions == EntriesOf(lines, qs)
    ensures pairs == SegmentAt(lines, qs)
  {
    ghost var expected := SegmentAt(lines, qs);
    pairs := [];
    for i := 0 to |questions|
      invariant pairs == expected[..i]
    {
      var q := questions[i];
      AnswerBounds(lines, qs, questions, i);
      var answerBlock;
      if i + 1 < |questions| {
        answerBlock := rebuilt[q.end..questions[i + 1].start];
      } else {
        answerBlock := rebuilt[q.end..];
      }
      var answer := CleanAnswer(answerBlock);
      PairStep(lines, qs, i, answerBlock);
      TakeOneMore(expected, i);
      pairs := pairs + [QA(q.text, answer)];
    }
    assert expected[..|questions|] == expected;
  }

  /**
    The entries of the question lines: the offsets the segmenter slices an
    answer at are those of the line after the question and of the next
    question line, and they lie in order inside the rebuilt text.
   */
  lemma {:induction false} AnswerBounds(lines: seq<string>, qs: seq<nat>, questions: seq<QuestionEntry>, i: nat)
    requires Ascending(qs, |lines|) && questions == EntriesOf(lines, qs) && i < |questions|
    ensures |questions| == |qs|
    ensures questions[i] == EntryOf(lines, qs[i])
    ensures i + 1 < |questions| ==> questions[i + 1] == EntryOf(lines, qs[i + 1])
    ensures i + 1 < |questions| ==> questions[i].end <= questions[i + 1].start <= |Rebuild(lines)|
    ensures questions[i].end <= |Rebuild(lines)|
  {
    LineStartMono(lines, qs[i] + 1, AnswerEnd(lines, qs, i));
  }

  /** The answer cut between two question offsets is the answer of `PairAt`. */
  lemma {:induction false} PairStep(lines: seq<string>, qs: seq<nat>, i: nat, answerBlock: string)
    requires forall k :: 0 <= k < |lines| ==> '\n' !in lines[k]
    requires Ascending(qs, |lines|) && i < |qs|
    requires LineStart(lines, qs[i] + 1) <= |Rebuild(lines)|
    requires i + 1 < |qs| ==> LineStart(lines, qs[i] + 1) <= LineStart(lines, qs[i + 1]) <= |Rebuild(lines)|
    requires answerBlock == if i + 1 < |qs| then Rebuild(lines)[LineStart(lines, qs[i] + 1)..LineStart(lines, qs[i + 1])]
                            else Rebuild(lines)[LineStart(lines, qs[i] + 1)..]
    ensures CleanAnswer(answerBlock) == PairAt(lines, qs, i).answer
  {
    var a, b := qs[i] + 1, AnswerEnd(lines, qs, i);
    if i + 1 < |qs| {
      assert qs[i] < qs[i + 1];
      BlockLines(lines, a, b, answerBlock);
    } else {
      assert lines[..|lines|] == lines;
      BlockLines(lines, a, |lines|, answerBlock);
    }
  }

  /** The text between the offsets of lines `a` and `b`, cleaned, is the non-blank lines between them, joined. */
  lemma {:induction false} BlockLines(lines: seq<string>, a: nat, b: nat, block: string)
    requires forall k :: 0 <= k < |lines| ==> '\n' !in lines[k]
    requires a <= b <= |lines| && LineStart(lines, a) <= LineStart(lines, b) <= |Rebuild(lines)|
    requires block == if b < |lines| then Rebuild(lines)[LineStart(lines, a)..LineStart(lines, b)]
                      else Rebuild(lines)[LineStart(lines, a)..]
    ensures CleanAnswer(block) == Join('\n', NonBlankLines(lines[a..b]))
  {
    AnswerBlockIsLines(lines, a, b);
  }

  /** Line offsets grow with the line number and stay inside the rebuilt text. */
  lemma {:induction false} LineStartMono(lines: seq<string>, a: nat, b: nat)
    requires a <= b <= |lines|
    ensures LineStart(lines, a) <= LineStart(lines, b) <= |Rebuild(lines)|
  {
    RebuildSlice(lines, a, b);
  }

  lemma {:induction false} TakeOneMore<T>(s: seq<T>, i: nat)
    requires i < |s|
    ensures s[..i + 1] == s[..i] + [s[i]]
  {
  }

  /** The `questions` entry of the line at `k`. */
  function EntryOf(lines: seq<string>, k: nat): QuestionEntry
    requires k < |lines|
  {
    QuestionEntry(Strip(lines[k]), LineStart(lines, k), LineStart(lines, k + 1))
  }

  /** Rebuilding distributes over concatenation. */
  lemma {:induction false} RebuildAppend(a: seq<string>, b: seq<string>)
    ensures Rebuild(a + b) == Rebuild(a) + Rebuild(b)
    decreases |b|
  {
    if |b| == 0 {
      EmptyAppend(b, a);
    } else {
      RebuildAppend(a, DropLast(b));
      DropLastOfAppend(a, b);
    }
  }

  lemma {:induction false} DropLastOfAppend<T>(a: seq<T>, b: seq<T>)
    requires |b| > 0
    ensures DropLast(a + b) == a + DropLast(b) && Last(a + b) == Last(b)
  {
  }

  /** The offsets of lines `a` to `b` cut out exactly those lines, each followed by a newline. */
  lemma {:induction false} RebuildSlice(lines: seq<string>, a: nat, b: nat)
    requires a <= b <= |lines|
    ensures LineStart(lines, a) <= LineStart(lines, b) <= |Rebuild(lines)|
    ensures Rebuild(lines)[LineStart(lines, a)..LineStart(lines, b)] == Rebuild(lines[a..b])
    ensures b == |lines| ==> Rebuild(lines)[LineStart(lines, a)..] == Rebuild(lines[a..b])
  {
    SplitThree(lines, a, b);
    RebuildAppend(lines[..a], lines[a..b]);
    RebuildAppend(lines[..a] + lines[a..b], lines[b..]);
    assert lines[..b] == lines[..a] + lines[a..b];
    var x, y, z := Rebuild(lines[..a]), Rebuild(lines[a..b]), Rebuild(lines[b..]);
    ConcatSlices(x, y, z);
  }

  lemma {:induction false} SplitThree<T>(s: seq<T>, a: nat, b: nat)
    requires a <= b <= |s|
    ensures s == s[..a] + s[a..b] + s[b..]
  {
  }

  lemma {:induction false} ConcatSlices(x: string, y: string, z: string)
    ensures (x + y + z)[|x|..|x| + |y|] == y
    ensures |z| == 0 ==> (x + y + z)[|x|..] == y
  {
  }

  /** Splitting rebuilt lines gives the lines back, with the empty piece after the final newline. */
  lemma {:induction false} SplitRebuild(ls: seq<string>)
    requires forall i :: 0 <= i < |ls| ==> '\n' !in ls[i]
    ensures Split(Rebuild(ls), '\n') == ls + [""]
    decreases |ls|
  {
    if |ls| > 0 {
      var rest := ls[1..];
      HeadTail(ls);
      RebuildAppend([ls[0]], rest);
      assert Rebuild([ls[0]]) == ls[0] + "\n" by {
        assert DropLast([ls[0]]) == [];
      }
      SplitAfterPiece(ls[0], Rebuild(rest), '\n');
      SplitRebuild(rest);
      ConsAssoc(ls[0], rest, [""]);
    }
  }

  lemma {:induction false} ConsAssoc<T>(x: T, s: seq<T>, t: seq<T>)
    ensures [x] + (s + t) == ([x] + s) + t
  {
  }

  /** Cleaning the block between two question lines yields their non-blank lines. */
  lemma {:induction false} CleanRebuild(ls: seq<string>)
    requires forall i :: 0 <= i < |ls| ==> '\n' !in ls[i]
    ensures CleanAnswer(Rebuild(ls)) == Join('\n', NonBlankLines(ls))
  {
    NonBlankSplitStrip(Rebuild(ls), '\n');
    SplitRebuild(ls);
    NonBlankLinesSnocBlank(ls);
  }

  /** The block the segmenter cuts for an answer, and what cleaning it gives. */
  lemma {:induction false} AnswerBlockIsLines(lines: seq<string>, a: nat, b: nat)
    requires a <= b <= |lines|
    requires forall i :: 0 <= i < |lines| ==> '\n' !in lines[i]
    ensures LineStart(lines, a) <= LineStart(lines, b) <= |Rebuild(lines)|
    ensures Rebuild(lines)[LineStart(lines, a)..LineStart(lines, b)] == Rebuild(lines[a..b])
    ensures b == |lines| ==> Rebuild(lines)[LineStart(lines, a)..] == Rebuild(lines[a..b])
    ensures CleanAnswer(Rebuild(lines[a..b])) == Join('\n', NonBlankLines(lines[a..b]))
  {
    RebuildSlice(lines, a, b);
    CleanRebuild(lines[a..b]);
  }

  lemma {:induction false} DropLastIndex<T>(s: seq<T>)
    requires |s| > 0
    ensures |DropLast(s)| == |s| - 1
    ensures forall k :: 0 <= k < |s| - 1 ==> DropLast(s)[k] == s[k]
  {
  }

  /** Going from the first `k` lines to the first `k + 1`. */
  lemma {:induction false} PrefixStep(lines: seq<string>, k: nat)
    requires k < |lines|
    ensures Rebuild(lines[..k + 1]) == Rebuild(lines[..k]) + lines[k] + "\n"
    ensures LineStart(lines, k + 1) == LineStart(lines, k) + |lines[k]| + 1
  {
    assert DropLast(lines[..k + 1]) == lines[..k];
    assert Last(lines[..k + 1]) == lines[k];
  }

  lemma {:induction false} PositionsStep(flags: seq<bool>, k: nat)
    requires k < |flags|
    ensures Positions(flags[..k + 1]) == Positions(flags[..k]) + (if flags[k] then [k] else [])
  {
    assert DropLast(flags[..k + 1]) == flags[..k];
    assert Last(flags[..k + 1]) == flags[k];
  }
}
