/**
  The Ministry of Commerce FAQ scraper: the FAQ block lies between a
  "FOIRE AUX QUESTIONS" heading and a "[N] questions trouvées" counter;
  inside it a small state machine walks the stripped non-blank lines, a
  line ending with `?` opening a question and every other line adding to
  the current answer. A question is emitted, with the page number and both
  texts normalized, only when at least one answer line follows it.
 */
module Commerce {
  import opened Chars
  import opened Text
  import opened Optional
  import opened Patterns
  import opened Blocks
  import opened Collapsing
  import opened Normalizer

  /** `FOIRE\s+AUX\s+QUESTIONS`, searched with `re.IGNORECASE`. */
  function StartMarker(): Pattern {
    SpacedWords(["FOIRE", "AUX", "QUESTIONS"], true)
  }

  /** `\[\s*\d+\s*\]\s*questions\s+trouvées`, searched with `re.IGNORECASE`. */
  function CountPattern(): Pattern {
    CountPrefix() + SpacedWords(["questions", "trouvées"], true)
  }

  /** `\[\s*\d+\s*\]\s*` */
  function CountPrefix(): Pattern {
    [Char('[', true), Run(Whitespace, 0), Run(Digit, 1), Run(Whitespace, 0), Char(']', true), Run(Whitespace, 0)]
  }

  lemma {:induction false} MarkersSeparated()
    ensures Separated(StartMarker()) && Separated(CountPattern()) && BeginsWithLiteral(CountPattern())
  {
    StartSeparated();
    var tail := SpacedWords(["questions", "trouvées"], true);
    TailSeparated();
    PrefixSeparated(CountPrefix(), tail);
  }

  lemma {:induction false} StartSeparated()
    ensures Separated(StartMarker())
  {
    var words := ["FOIRE", "AUX", "QUESTIONS"];
    assert words[0][0] == 'F' && words[1][0] == 'A' && words[2][0] == 'Q';
    SpacedWordsSeparated(words, true);
  }

  lemma {:induction false} TailSeparated()
    ensures var tail := SpacedWords(["questions", "trouvées"], true);
      Separated(tail) && |tail| > 0 && tail[0] == Char('q', true)
  {
    var words := ["questions", "trouvées"];
    assert words[0][0] == 'q' && words[1][0] == 't';
    SpacedWordsSeparated(words, true);
    SpacedWordsStartWith(words, true);
  }

  /** The counter prefix stays separated in front of a pattern that starts with `q`. */
  lemma {:induction false} PrefixSeparated(pre: Pattern, tail: Pattern)
    requires pre == CountPrefix()
    requires Separated(tail) && |tail| > 0 && tail[0] == Char('q', true)
    ensures Separated(pre + tail)
  {
    var p := pre + tail;
    forall k | 0 <= k < |p| && p[k].Run?
      ensures StopsRun(p[k + 1..], p[k].cls)
    {
      if k < |pre| {
        PrefixRunStops(pre, tail, k);
      } else {
        assert p[k] == tail[k - |pre|];
        assert p[k + 1..] == tail[k - |pre| + 1..];
      }
    }
  }

  lemma {:induction false} PrefixRunStops(pre: Pattern, tail: Pattern, k: nat)
    requires pre == CountPrefix() && k < |pre| && pre[k].Run?
    requires |tail| > 0 && tail[0] == Char('q', true)
    ensures StopsRun((pre + tail)[k + 1..], pre[k].cls)
  {
    var p := pre + tail;
    assert p[k + 1..][0] == p[k + 1];
    if k == 2 {
      assert p[k + 1..][1..] == p[k + 2..];
      assert p[k + 2..][0] == p[k + 2];
    }
  }

  /**
    `extract_faq_block`: the stripped text after the first start-marker
    match, up to the first later `[N] questions trouvées` match or to the
    end of the text; empty when there is no start marker. No counter match
    is left inside it.
   */
  function ExtractFaqBlock(fullText: string): (r: string)
    ensures NoMatchFrom(StartMarker(), fullText, 0) ==> r == ""
    ensures Trimmed(r)
    ensures forall m, e :: IsLeftmostMatch(StartMarker(), fullText, 0, m) && IsLeftmostMatch(CountPattern(), fullText, m.end, e) ==>
      Padded(fullText[m.end..e.start], r)
    ensures forall m :: IsLeftmostMatch(StartMarker(), fullText, 0, m) && NoMatchFrom(CountPattern(), fullText, m.end) ==>
      Padded(fullText[m.end..], r)
    ensures forall i, j :: 0 <= i <= j <= |r| ==> !Accepts(CountPattern(), r[i..j])
  {
    MarkersSeparated();
    Isolate(fullText, StartMarker(), CountPattern())
  }

  /** One emitted record: the page it came from and the normalized texts. */
  datatype QA = QA(page: int, question: string, answer: string)

  /**
    The record for a question line and its answer lines: both normalized,
    the answer lines joined with `" "` first.
   */
  function Record(page: int, question: string, answer: seq<string>): QA {
    QA(page, Normalize(question), Normalize(Join(' ', answer)))
  }

  /** How the loop turns a question line and its answer lines into a record. */
  type Builder = (string, seq<string>) -> QA

  /** The records of page `page`. */
  function RecordsOn(page: int): Builder {
    (question, answer) => Record(page, question, answer)
  }

  /** Which lines are question lines: those ending with `?`. */
  function QuestionFlags(lines: seq<string>): (f: seq<bool>)
    ensures |f| == |lines|
  {
    if |lines| == 0 then [] else [EndsWithQuestionMark(lines[0])] + QuestionFlags(lines[1..])
  }

  /** Line `i` is flagged exactly when it ends with `?`. */
  lemma {:induction false} FlagAt(lines: seq<string>, i: nat)
    requires i < |lines|
    ensures QuestionFlags(lines)[i] == EndsWithQuestionMark(lines[i])
    decreases i
  {
    if i > 0 {
      FlagAt(lines[1..], i - 1);
    }
  }

  /** The first question line at or after `j`, or the end. */
  function NextQuestion(f: seq<bool>, j: nat): (q: nat)
    requires j <= |f|
    ensures j <= q <= |f|
    ensures q < |f| ==> f[q]
    decreases |f| - j
  {
    if j == |f| || f[j] then j else NextQuestion(f, j + 1)
  }

  /** No line in `[j, NextQuestion(f, j))` is a question. */
  lemma {:induction false} NextQuestionSkips(f: seq<bool>, j: nat)
    requires j <= |f|
    ensures forall x :: j <= x < NextQuestion(f, j) ==> !f[x]
    decreases |f| - j
  {
    if j < |f| && !f[j] {
      NextQuestionSkips(f, j + 1);
    }
  }

  /** `NextQuestion` finds the first question: none in `[j, k)` and one at `k` (or the end) makes it `k`. */
  lemma {:induction false} NextQuestionAt(f: seq<bool>, j: nat, k: nat)
    requires j <= k <= |f|
    requires forall x :: j <= x < k ==> !f[x]
    requires k < |f| ==> f[k]
    ensures NextQuestion(f, j) == k
    decreases k - j
  {
    if j < k {
      NextQuestionAt(f, j + 1, k);
    }
  }

  /** A question line at `i` bounds the next question from any `j <= i`. */
  lemma {:induction false} NextQuestionAtMost(f: seq<bool>, j: nat, i: nat)
    requires j <= i < |f| && f[i]
    ensures NextQuestion(f, j) <= i
    decreases i - j
  {
    if j < i && !f[j] {
      NextQuestionAtMost(f, j + 1, i);
    }
  }

  /** A question line and the end of its answer lines: the answer is `lines[question + 1..end]`. */
  datatype Span = Span(question: nat, end: nat)

  /**
    The spans of the question lines at or after `j`, in order: each
    question takes the lines up to the next question as its answer and is
    kept only when there is at least one.
   */
  function Spans(f: seq<bool>, j: nat): seq<Span>
    requires j <= |f|
    decreases |f| - j
  {
    var q := NextQuestion(f, j);
    if q == |f| then []
    else
      var e := NextQuestion(f, q + 1);
      (if e > q + 1 then [Span(q, e)] else []) + Spans(f, e)
  }

  /** At a question line `q`, `Spans` takes its span, if it has answer lines, then goes on from the next question. */
  lemma {:induction false} SpansAtQuestion(f: seq<bool>, q: nat)
    requires q < |f| && f[q]
    ensures var e := NextQuestion(f, q + 1);
      Spans(f, q) == (if e > q + 1 then [Span(q, e)] else []) + Spans(f, e)
  {
  }

  /** Every span has a question line and at least one answer line among `n` lines. */
  predicate SpansIn(n: nat, spans: seq<Span>)
    decreases |spans|
  {
    |spans| == 0 || (SpansIn(n, DropLast(spans)) && Last(spans).question + 1 < Last(spans).end <= n)
  }

  /** `SpansIn`, span by span. */
  lemma {:induction false} SpansInAt(n: nat, spans: seq<Span>)
    ensures SpansIn(n, spans) <==> forall x :: 0 <= x < |spans| ==> spans[x].question + 1 < spans[x].end <= n
    decreases |spans|
  {
    if |spans| > 0 {
      var init := DropLast(spans);
      SpansInAt(n, init);
      assert forall x :: 0 <= x < |init| ==> init[x] == spans[x];
    }
  }

  /** A question line followed by at least one answer line: the questions that produce a record. */
  predicate Answered(f: seq<bool>, q: nat) {
    q + 1 < |f| && f[q] && !f[q + 1]
  }

  /**
    Each span of `Spans` is an answered question whose answer runs to the
    next question line (or the end).
   */
  lemma {:induction false} SpansAnswered(f: seq<bool>, j: nat)
    requires j <= |f|
    ensures var sp := Spans(f, j);
      && SpansIn(|f|, sp)
      && forall x :: 0 <= x < |sp| ==> AnsweredFrom(f, j, sp[x])
    decreases |f| - j
  {
    var q := NextQuestion(f, j);
    SpansFromNext(f, j);
    if q < |f| {
      var e := NextQuestion(f, q + 1);
      SpansAnswered(f, e);
      SpansAtQuestion(f, q);
      var rest := Spans(f, e);
      if e > q + 1 {
        AnsweredCons(f, j, e, Span(q, e), rest);
      } else {
        EmptyAppend([], rest);
        AnsweredLater(f, j, e, rest);
      }
    } else {
      SpansAtEnd(f);
    }
  }

  /** The span `sp` is an answered question at or after `j`, whose answer runs to the next question. */
  predicate AnsweredFrom(f: seq<bool>, j: nat, sp: Span) {
    j <= sp.question && Answered(f, sp.question) && sp.end == NextQuestion(f, sp.question + 1)
  }

  lemma {:induction false} AnsweredLater(f: seq<bool>, j: nat, e: nat, rest: seq<Span>)
    requires j <= e && forall x :: 0 <= x < |rest| ==> AnsweredFrom(f, e, rest[x])
    ensures forall x :: 0 <= x < |rest| ==> AnsweredFrom(f, j, rest[x])
  {
  }

  lemma {:induction false} AnsweredCons(f: seq<bool>, j: nat, e: nat, head: Span, rest: seq<Span>)
    requires j <= e && AnsweredFrom(f, j, head) && head.end <= |f|
    requires SpansIn(|f|, rest) && forall x :: 0 <= x < |rest| ==> AnsweredFrom(f, e, rest[x])
    requires head.question + 1 < head.end
    ensures SpansIn(|f|, [head] + rest)
    ensures forall x :: 0 <= x < |[head] + rest| ==> AnsweredFrom(f, j, ([head] + rest)[x])
  {
    AnsweredLater(f, j, e, rest);
    SpansInAt(|f|, rest);
    SpansInAt(|f|, [head] + rest);
    forall x | 0 <= x < |[head] + rest|
      ensures AnsweredFrom(f, j, ([head] + rest)[x])
      ensures ([head] + rest)[x].question + 1 < ([head] + rest)[x].end <= |f|
    {
      if x > 0 {
        assert ([head] + rest)[x] == rest[x - 1];
      }
    }
  }

  /** The spans lie within the lines. */
  lemma {:induction false} SpansWithin(f: seq<bool>, j: nat)
    requires j <= |f|
    ensures SpansIn(|f|, Spans(f, j))
  {
    SpansAnswered(f, j);
  }

  /** The spans come in document order and do not overlap. */
  lemma {:induction false} SpansOrdered(f: seq<bool>, j: nat)
    requires j <= |f|
    ensures var sp := Spans(f, j);
      forall x :: 0 <= x < |sp| - 1 ==> sp[x].end <= sp[x + 1].question
    decreases |f| - j
  {
    var q := NextQuestion(f, j);
    SpansFromNext(f, j);
    if q < |f| {
      var e := NextQuestion(f, q + 1);
      SpansOrdered(f, e);
      SpansAfter(f, e);
      SpansAtQuestion(f, q);
      if e > q + 1 {
        SpansCons(Span(q, e), Spans(f, e), e);
      } else {
        EmptyAppend([], Spans(f, e));
      }
    } else {
      SpansAtEnd(f);
    }
  }

  /** The spans from `e` on start at or after `e`. */
  lemma {:induction false} SpansAfter(f: seq<bool>, e: nat)
    requires e <= |f|
    ensures var sp := Spans(f, e); forall x :: 0 <= x < |sp| ==> e <= sp[x].question
  {
    SpansAnswered(f, e);
  }

  lemma {:induction false} SpansCons(head: Span, rest: seq<Span>, e: nat)
    requires head.end == e
    requires forall x :: 0 <= x < |rest| ==> e <= rest[x].question
    requires forall x :: 0 <= x < |rest| - 1 ==> rest[x].end <= rest[x + 1].question
    ensures forall x :: 0 <= x < |[head] + rest| - 1 ==> ([head] + rest)[x].end <= ([head] + rest)[x + 1].question
  {
  }

  /** The record of one span. */
  function RecordOf(build: Builder, lines: seq<string>, sp: Span): QA
    requires sp.question < sp.end <= |lines|
  {
    build(lines[sp.question], lines[sp.question + 1..sp.end])
  }

  /** The records of a list of spans. */
  function Records(build: Builder, lines: seq<string>, spans: seq<Span>): (r: seq<QA>)
    requires SpansIn(|lines|, spans)
    ensures |r| == |spans|
    decreases |spans|
  {
    if |spans| == 0 then []
    else
      Records(build, lines, DropLast(spans)) + [RecordOf(build, lines, Last(spans))]
  }

  /** The records are the spans' records, one for one. */
  lemma {:induction false} RecordsAt(build: Builder, lines: seq<string>, spans: seq<Span>)
    requires SpansIn(|lines|, spans)
    ensures var r := Records(build, lines, spans);
      forall x :: 0 <= x < |spans| ==>
        spans[x].question < spans[x].end <= |lines| && r[x] == RecordOf(build, lines, spans[x])
    decreases |spans|
  {
    SpansInAt(|lines|, spans);
    if |spans| > 0 {
      var init := DropLast(spans);
      RecordsAt(build, lines, init);
      var r := Records(build, lines, spans);
      var front := Records(build, lines, init);
      assert r == front + [RecordOf(build, lines, Last(spans))];
      forall x | 0 <= x < |spans|
        ensures r[x] == RecordOf(build, lines, spans[x])
      {
        if x < |init| {
          assert r[x] == front[x] && init[x] == spans[x];
        }
      }
    }
  }

  /**
    The records of the block's lines: one per question line followed by
    at least one answer line, in document order.
   */
  function Segments(build: Builder, lines: seq<string>): seq<QA> {
    var f := QuestionFlags(lines);
    SpansWithin(f, 0);
    Records(build, lines, Spans(f, 0))
  }

  /** The lines the state machine walks: the stripped non-blank lines of the block. */
  function Lines(block: string): seq<string> {
    NonBlankLines(SplitLines(block))
  }

  /**
    `extract_qa_from_text`, as the source's state machine over `current_q`
    and `current_a`; it yields the records `Segments` describes.
   */
  method ExtractQaFromText(fullText: string, page: int) returns (pairs: seq<QA>)
    ensures pairs == Segments(RecordsOn(page), Lines(ExtractFaqBlock(fullText)))
  {
    var faqText := ExtractFaqBlock(fullText);
    if faqText == "" {
      NoLines(RecordsOn(page));
      return [];
    }
    pairs := Walk(RecordsOn(page), Lines(faqText));
  }

  /**
    Where the walk over the question flags `f` stands before line `i`, with
    `done` the spans emitted so far and `whole` all the spans. With no open
    question, nothing was emitted and no question line was passed; with the
    question at `q` open, no question line follows it before `i`, and the
    spans from `q` on complete `done` to `whole`.
   */
  ghost predicate Walking(f: seq<bool>, whole: seq<Span>, i: nat, open: bool, q: nat, done: seq<Span>) {
    && i <= |f| && SpansIn(|f|, done)
    && (!open ==> done == [] && NextQuestion(f, 0) >= i && whole == Spans(f, 0))
    && (open ==> q < i && f[q] && NextQuestion(f, q + 1) >= i && done + Spans(f, q) == whole)
  }

  /** The loop's state: the records emitted so far, the open question and the lines read since it. */
  datatype Walker = Walker(pairs: seq<QA>, currentQ: Option<string>, currentA: seq<string>)

  /** `if current_q and current_a: qa_pairs.append(...)`: the open question is emitted when it has answer lines. */
  function Emit(build: Builder, w: Walker): seq<QA> {
    if w.currentQ.Some? && |w.currentA| > 0 then w.pairs + [build(w.currentQ.value, w.currentA)]
    else w.pairs
  }

  /** One pass of the loop: a question line emits the open question and opens itself; any other line is an answer line. */
  function Feed(build: Builder, w: Walker, line: string): Walker {
    if EndsWithQuestionMark(line) then Walker(Emit(build, w), Some(line), [])
    else w.(currentA := w.currentA + [line])
  }

  /** The state after the loop has read `lines`. */
  function FeedAll(build: Builder, lines: seq<string>): Walker
    decreases |lines|
  {
    if |lines| == 0 then Walker([], None, [])
    else Feed(build, FeedAll(build, DropLast(lines)), Last(lines))
  }

  /**
    The loop of `extract_qa_from_text` over the stripped non-blank lines,
    then the emission of the last question; it depends on the normalizer
    only through the records it builds.
   */
  method Walk(build: Builder, lines: seq<string>) returns (pairs: seq<QA>)
    ensures pairs == Segments(build, lines)
  {
    var w := Walker([], None, []);
    for i := 0 to |lines|
      invariant w == FeedAll(build, lines[..i])
    {
      assert DropLast(lines[..i + 1]) == lines[..i];
      w := Feed(build, w, lines[i]);
    }
    pairs := Emit(build, w);
    assert lines[..|lines|] == lines;
    WalkSegments(build, lines);
  }

  /** What the loop emits is the records of the spans. */
  lemma {:induction false} WalkSegments(build: Builder, lines: seq<string>)
    ensures Emit(build, FeedAll(build, lines)) == Segments(build, lines)
  {
    var q, done := FeedTracks(build, lines, |lines|);
    assert lines[..|lines|] == lines;
    EmitSegments(build, lines, FeedAll(build, lines), q, done);
  }

  /**
    The loop state after line `i` against the spans: `Walking` holds for
    the question at `q` and the spans `done`, the records emitted are
    those of `done`, and the open question and its lines are those lines.
   */
  ghost predicate Tracks(build: Builder, lines: seq<string>, i: nat, w: Walker, q: nat, done: seq<Span>) {
    var f := QuestionFlags(lines);
    && Walking(f, Spans(f, 0), i, w.currentQ.Some?, q, done)
    && w.pairs == Records(build, lines, done)
    && (w.currentQ.Some? ==> w.currentQ.value == lines[q] && w.currentA == lines[q + 1..i])
  }

  /** The loop state after any number of lines is tracked by some question and spans. */
  lemma {:induction false} FeedTracks(build: Builder, lines: seq<string>, i: nat) returns (q: nat, done: seq<Span>)
    requires i <= |lines|
    ensures Tracks(build, lines, i, FeedAll(build, lines[..i]), q, done)
    decreases i
  {
    if i == 0 {
      q, done := 0, [];
      assert lines[..0] == [];
    } else {
      var q0, done0 := FeedTracks(build, lines, i - 1);
      assert DropLast(lines[..i]) == lines[..i - 1];
      q, done := StepTracks(build, lines, i - 1, FeedAll(build, lines[..i - 1]), q0, done0);
    }
  }

  /** One line keeps the state tracked. */
  lemma {:induction false} StepTracks(build: Builder, lines: seq<string>, i: nat, w: Walker, q0: nat, done0: seq<Span>)
    returns (q: nat, done: seq<Span>)
    requires i < |lines| && Tracks(build, lines, i, w, q0, done0)
    ensures Tracks(build, lines, i + 1, Feed(build, w, lines[i]), q, done)
  {
    FlagAt(lines, i);
    if !EndsWithQuestionMark(lines[i]) {
      q, done := q0, done0;
      StepAnswerLine(build, lines, i, w, q, done);
    } else if w.currentQ.None? {
      q, done := i, done0;
      StepFirstQuestion(build, lines, i, w, q0, done);
    } else if |w.currentA| > 0 {
      q, done := i, done0 + [Span(q0, i)];
      StepAnswered(build, lines, i, w, q0, done0);
    } else {
      q, done := i, done0;
      StepUnanswered(build, lines, i, w, q0, done);
    }
  }

  /** A line that is not a question adds to the answer lines. */
  lemma {:induction false} StepAnswerLine(build: Builder, lines: seq<string>, i: nat, w: Walker, q: nat, done: seq<Span>)
    requires i < |lines| && Tracks(build, lines, i, w, q, done)
    requires !EndsWithQuestionMark(lines[i])
    ensures Tracks(build, lines, i + 1, Feed(build, w, lines[i]), q, done)
  {
    var f := QuestionFlags(lines);
    FlagAt(lines, i);
    SkipLine(f, Spans(f, 0), i, w.currentQ.Some?, q, done);
    if w.currentQ.Some? {
      SliceSnoc(lines, q + 1, i);
    }
  }

  /** The first question line opens a question and emits nothing. */
  lemma {:induction false} StepFirstQuestion(build: Builder, lines: seq<string>, i: nat, w: Walker, q: nat, done: seq<Span>)
    requires i < |lines| && Tracks(build, lines, i, w, q, done)
    requires EndsWithQuestionMark(lines[i]) && w.currentQ.None?
    ensures Tracks(build, lines, i + 1, Feed(build, w, lines[i]), i, done)
  {
    var f := QuestionFlags(lines);
    FlagAt(lines, i);
    OpenFirst(f, Spans(f, 0), i, q, done);
  }

  /** A question line after answer lines emits the open question's record. */
  lemma {:induction false} StepAnswered(build: Builder, lines: seq<string>, i: nat, w: Walker, q: nat, done: seq<Span>)
    requires i < |lines| && Tracks(build, lines, i, w, q, done)
    requires EndsWithQuestionMark(lines[i]) && w.currentQ.Some? && |w.currentA| > 0
    ensures Tracks(build, lines, i + 1, Feed(build, w, lines[i]), i, done + [Span(q, i)])
  {
    var f := QuestionFlags(lines);
    FlagAt(lines, i);
    CloseAnswered(f, Spans(f, 0), i, q, done);
    RecordsSnoc(build, lines, done, Span(q, i));
    assert build(w.currentQ.value, w.currentA) == RecordOf(build, lines, Span(q, i));
  }

  /** A question line right after the open question drops it. */
  lemma {:induction false} StepUnanswered(build: Builder, lines: seq<string>, i: nat, w: Walker, q: nat, done: seq<Span>)
    requires i < |lines| && Tracks(build, lines, i, w, q, done)
    requires EndsWithQuestionMark(lines[i]) && w.currentQ.Some? && |w.currentA| == 0
    ensures Tracks(build, lines, i + 1, Feed(build, w, lines[i]), i, done)
  {
    var f := QuestionFlags(lines);
    FlagAt(lines, i);
    CloseUnanswered(f, Spans(f, 0), i, q, done);
  }

  /** After the last line, emitting the open question completes the spans' records. */
  lemma {:induction false} EmitSegments(build: Builder, lines: seq<string>, w: Walker, q: nat, done: seq<Span>)
    requires Tracks(build, lines, |lines|, w, q, done)
    ensures Emit(build, w) == Segments(build, lines)
  {
    var f := QuestionFlags(lines);
    SpansWithin(f, 0);
    if w.currentQ.Some? && |w.currentA| > 0 {
      EmitAnswered(build, lines, w, q, done);
    } else {
      EmitNothing(build, lines, w, q, done);
    }
  }

  /** An open question with answer lines gives the last record. */
  lemma {:induction false} EmitAnswered(build: Builder, lines: seq<string>, w: Walker, q: nat, done: seq<Span>)
    requires Tracks(build, lines, |lines|, w, q, done)
    requires w.currentQ.Some? && |w.currentA| > 0
    ensures Emit(build, w) == Records(build, lines, done + [Span(q, |lines|)])
    ensures done + [Span(q, |lines|)] == Spans(QuestionFlags(lines), 0)
  {
    var f := QuestionFlags(lines);
    EndAnswered(f, Spans(f, 0), q, done);
    var sp := Span(q, |lines|);
    RecordsSnoc(build, lines, done, sp);
    assert build(w.currentQ.value, w.currentA) == RecordOf(build, lines, sp);
  }

  /** Otherwise nothing more is emitted and the spans are complete. */
  lemma {:induction false} EmitNothing(build: Builder, lines: seq<string>, w: Walker, q: nat, done: seq<Span>)
    requires Tracks(build, lines, |lines|, w, q, done)
    requires !(w.currentQ.Some? && |w.currentA| > 0)
    ensures Emit(build, w) == Records(build, lines, done)
    ensures done == Spans(QuestionFlags(lines), 0)
  {
    var f := QuestionFlags(lines);
    if w.currentQ.Some? {
      EndUnanswered(f, Spans(f, 0), q, done);
    } else {
      EndNone(f, Spans(f, 0), q, done);
    }
  }

  lemma {:induction false} NoLines(build: Builder)
    ensures Segments(build, Lines("")) == []
  {
    assert Lines("") == [];
  }

  lemma {:induction false} RecordsSnoc(build: Builder, lines: seq<string>, done: seq<Span>, sp: Span)
    requires SpansIn(|lines|, done) && sp.question + 1 < sp.end <= |lines|
    ensures SpansIn(|lines|, done + [sp])
    ensures Records(build, lines, done + [sp]) == Records(build, lines, done) + [RecordOf(build, lines, sp)]
  {
    SpansSnoc(|lines|, done, sp);
  }

  /** A line that is not a question joins the open answer, or is passed over before the first question. */
  lemma {:induction false} SkipLine(f: seq<bool>, whole: seq<Span>, i: nat, open: bool, q: nat, done: seq<Span>)
    requires Walking(f, whole, i, open, q, done) && i < |f| && !f[i]
    ensures Walking(f, whole, i + 1, open, q, done)
  {
  }

  /** The first question line opens a question; nothing was emitted for the lines before it. */
  lemma {:induction false} OpenFirst(f: seq<bool>, whole: seq<Span>, i: nat, q: nat, done: seq<Span>)
    requires Walking(f, whole, i, false, q, done) && i < |f| && f[i]
    ensures Walking(f, whole, i + 1, true, i, done)
  {
    NextQuestionAtMost(f, 0, i);
    EmptyAppend(done, Spans(f, i));
  }

  /** A question line after answer lines closes the open question with its span. */
  lemma {:induction false} CloseAnswered(f: seq<bool>, whole: seq<Span>, i: nat, q: nat, done: seq<Span>)
    requires Walking(f, whole, i, true, q, done) && i < |f| && f[i] && i > q + 1
    ensures Walking(f, whole, i + 1, true, i, done + [Span(q, i)])
  {
    NextQuestionAtMost(f, q + 1, i);
    SpansAtQuestion(f, q);
    AppendAssoc(done, [Span(q, i)], Spans(f, i));
    SpansSnoc(|f|, done, Span(q, i));
  }

  /** A question line right after the open question drops it: it has no answer line. */
  lemma {:induction false} CloseUnanswered(f: seq<bool>, whole: seq<Span>, i: nat, q: nat, done: seq<Span>)
    requires Walking(f, whole, i, true, q, done) && i < |f| && f[i] && i == q + 1
    ensures Walking(f, whole, i + 1, true, i, done)
  {
    SpansAtQuestion(f, q);
    EmptyAppend([], Spans(f, i));
  }

  /** At the end of the lines, an open question with answer lines gives the last span. */
  lemma {:induction false} EndAnswered(f: seq<bool>, whole: seq<Span>, q: nat, done: seq<Span>)
    requires Walking(f, whole, |f|, true, q, done) && |f| > q + 1
    ensures done + [Span(q, |f|)] == whole
  {
    SpansAtQuestion(f, q);
    assert Spans(f, |f|) == [];
    AppendEmpty([Span(q, |f|)]);
  }

  /** At the end of the lines, an open question without answer lines gives nothing. */
  lemma {:induction false} EndUnanswered(f: seq<bool>, whole: seq<Span>, q: nat, done: seq<Span>)
    requires Walking(f, whole, |f|, true, q, done) && |f| == q + 1
    ensures done == whole
  {
    SpansAtQuestion(f, q);
    assert Spans(f, |f|) == [];
    EmptyAppend([], Spans(f, |f|));
    AppendEmpty(done);
  }

  /** Without a question line there are no spans. */
  lemma {:induction false} EndNone(f: seq<bool>, whole: seq<Span>, q: nat, done: seq<Span>)
    requires Walking(f, whole, |f|, false, q, done)
    ensures done == whole
  {
  }

  lemma {:induction false} SpansSnoc(n: nat, done: seq<Span>, sp: Span)
    requires SpansIn(n, done) && sp.question + 1 < sp.end <= n
    ensures SpansIn(n, done + [sp])
  {
    assert DropLast(done + [sp]) == done;
  }

  // ---------------------------------------------------------------------
  // What the records are
  // ---------------------------------------------------------------------

  /** The number of answered question lines at or after `j`. */
  function CountAnswered(f: seq<bool>, j: nat): nat
    requires j <= |f|
    decreases |f| - j
  {
    if j == |f| then 0 else (if Answered(f, j) then 1 else 0) + CountAnswered(f, j + 1)
  }

  /** Lines before the next question are not answered questions, so they add nothing to the count. */
  lemma {:induction false} CountSkips(f: seq<bool>, j: nat, k: nat)
    requires j <= k <= |f|
    requires forall x :: j <= x < k ==> !f[x]
    ensures CountAnswered(f, j) == CountAnswered(f, k)
    decreases k - j
  {
    if j < k {
      CountSkips(f, j + 1, k);
    }
  }

  /** The count does not change up to the next question line. */
  lemma {:induction false} CountToNext(f: seq<bool>, j: nat)
    requires j <= |f|
    ensures CountAnswered(f, j) == CountAnswered(f, NextQuestion(f, j))
  {
    NextQuestionSkips(f, j);
    CountSkips(f, j, NextQuestion(f, j));
  }

  /** One span per answered question line: questions with no answer line are dropped. */
  lemma {:induction false} SpansCount(f: seq<bool>, j: nat)
    requires j <= |f|
    ensures |Spans(f, j)| == CountAnswered(f, j)
    decreases |f| - j
  {
    var q := NextQuestion(f, j);
    CountToNext(f, j);
    SpansFromNext(f, j);
    if q < |f| {
      var e := NextQuestion(f, q + 1);
      SpansCount(f, e);
      CountToNext(f, q + 1);
      SpansAtQuestion(f, q);
      AnsweredAt(f, q);
      CountAt(f, q);
    } else {
      SpansAtEnd(f);
      CountAtEnd(f);
    }
  }

  /** `Spans` starts from the next question line. */
  lemma {:induction false} SpansFromNext(f: seq<bool>, j: nat)
    requires j <= |f|
    ensures Spans(f, j) == Spans(f, NextQuestion(f, j))
  {
    var q := NextQuestion(f, j);
    if q < |f| {
      assert NextQuestion(f, q) == q;
    } else {
      SpansAtEnd(f);
    }
  }

  lemma {:induction false} SpansAtEnd(f: seq<bool>)
    ensures Spans(f, |f|) == []
  {
  }

  lemma {:induction false} CountAtEnd(f: seq<bool>)
    ensures CountAnswered(f, |f|) == 0
  {
  }

  lemma {:induction false} CountAt(f: seq<bool>, q: nat)
    requires q < |f|
    ensures CountAnswered(f, q) == (if Answered(f, q) then 1 else 0) + CountAnswered(f, q + 1)
  {
  }

  /** The question at `q` is answered exactly when the next question is not the line right after it. */
  lemma {:induction false} AnsweredAt(f: seq<bool>, q: nat)
    requires q < |f| && f[q]
    ensures Answered(f, q) <==> NextQuestion(f, q + 1) > q + 1
  {
  }

  /** Without a question line there are no spans. */
  lemma {:induction false} NoQuestionNone(f: seq<bool>)
    requires forall x :: 0 <= x < |f| ==> !f[x]
    ensures Spans(f, 0) == []
  {
    NextQuestionAt(f, 0, |f|);
  }

  /** The lines `NonBlankLines` produces: non-empty and stripped. */
  predicate CleanLines(lines: seq<string>) {
    forall i :: 0 <= i < |lines| ==> |lines[i]| > 0 && Trimmed(lines[i])
  }

  /** What a record holds: the page, a question that still ends with `?`, and a non-empty answer. */
  predicate WellFormed(r: QA, page: int) {
    r.page == page && EndsWithQuestionMark(r.question) && |r.answer| > 0
  }

  /**
    What the extraction needs of its record builder: a stripped question
    line ending with `?` and answer lines starting with a non-empty
    stripped one make a well-formed record of page `page`.
   */
  ghost predicate BuildsWellFormed(build: Builder, page: int) {
    forall question, answer ::
      Trimmed(question) && EndsWithQuestionMark(question) && |answer| > 0 && |answer[0]| > 0 && Trimmed(answer[0]) ==>
        WellFormed(build(question, answer), page)
  }

  /** The records of the extraction are such a builder. */
  lemma {:induction false} RecordsOnWellFormed(page: int)
    ensures BuildsWellFormed(RecordsOn(page), page)
  {
    forall question, answer |
      Trimmed(question) && EndsWithQuestionMark(question) && |answer| > 0 && |answer[0]| > 0 && Trimmed(answer[0])
      ensures WellFormed(RecordsOn(page)(question, answer), page)
    {
      RecordFromLines(page, question, answer);
    }
  }

  /** A stripped question line ending with `?` and answer lines starting with a non-empty stripped one make a well-formed record. */
  lemma {:induction false} RecordFromLines(page: int, question: string, answer: seq<string>)
    requires Trimmed(question) && EndsWithQuestionMark(question)
    requires |answer| > 0 && |answer[0]| > 0 && Trimmed(answer[0])
    ensures WellFormed(Record(page, question, answer), page)
  {
    StripTrimmed(question);
    NormalizeQuestion(question);
    JoinNotBlank(answer);
    NormalizeNotBlank(Join(' ', answer));
  }

  /** The record of an answered span of clean lines is well formed. */
  lemma {:induction false} RecordWellFormed(build: Builder, lines: seq<string>, sp: Span, page: int)
    requires BuildsWellFormed(build, page) && CleanLines(lines)
    requires sp.question + 1 < sp.end <= |lines| && EndsWithQuestionMark(lines[sp.question])
    ensures WellFormed(RecordOf(build, lines, sp), page)
  {
    var answer := lines[sp.question + 1..sp.end];
    assert answer[0] == lines[sp.question + 1];
  }

  /** Stripping a stripped line changes nothing. */
  lemma {:induction false} StripTrimmed(t: string)
    requires Trimmed(t)
    ensures Strip(t) == t
  {
    assert PaddedAt(t, t, 0);
    StripUnique(t, t);
  }

  /** Joining lines the first of which is non-empty and stripped leaves a non-whitespace character. */
  lemma {:induction false} JoinNotBlank(parts: seq<string>)
    requires |parts| > 0 && |parts[0]| > 0 && Trimmed(parts[0])
    ensures |NonSpace(Join(' ', parts))| > 0
  {
    var p := parts[0];
    assert NonSpace(p) == [p[0]] + NonSpace(p[1..]);
    if |parts| > 1 {
      NonSpaceAppend(p, [' '] + Join(' ', parts[1..]));
      assert Join(' ', parts) == p + ([' '] + Join(' ', parts[1..]));
    }
  }

  /** Normalizing a text with a non-whitespace character leaves it non-empty. */
  lemma {:induction false} NormalizeNotBlank(s: string)
    requires |NonSpace(s)| > 0
    ensures |Normalize(s)| > 0
  {
    NormalizeSpec(s);
  }

  /**
    Which records the extraction yields: one per answered question line, in
    document order, none for a block without a question line; each carries
    the page, the normalized question line and the normalized space-join of
    the lines up to the next question.
   */
  lemma {:induction false} SegmentsSpec(build: Builder, lines: seq<string>)
    ensures var f := QuestionFlags(lines); var r, sp := Segments(build, lines), Spans(f, 0);
      && |r| == CountAnswered(f, 0) == |sp|
      && ((forall x :: 0 <= x < |lines| ==> !EndsWithQuestionMark(lines[x])) ==> r == [])
      && (forall x :: 0 <= x < |r| ==>
            && Answered(f, sp[x].question)
            && r[x] == build(lines[sp[x].question], lines[sp[x].question + 1..NextQuestion(f, sp[x].question + 1)]))
  {
    var f := QuestionFlags(lines);
    var sp := Spans(f, 0);
    SpansAnswered(f, 0);
    SpansCount(f, 0);
    RecordsAt(build, lines, sp);
    if forall x :: 0 <= x < |lines| ==> !EndsWithQuestionMark(lines[x]) {
      forall x | 0 <= x < |f|
        ensures !f[x]
      {
        FlagAt(lines, x);
      }
      NoQuestionNone(f);
    }
  }

  /**
    Every record of clean lines is well formed: it carries the page, its
    question still ends with `?` and its answer is not empty.
   */
  lemma {:induction false} SegmentsWellFormed(build: Builder, lines: seq<string>, page: int)
    requires BuildsWellFormed(build, page) && CleanLines(lines)
    ensures var r := Segments(build, lines);
      forall x :: 0 <= x < |r| ==> WellFormed(r[x], page)
  {
    var f := QuestionFlags(lines);
    var sp := Spans(f, 0);
    SpansAnswered(f, 0);
    RecordsAt(build, lines, sp);
    forall x | 0 <= x < |sp|
      ensures WellFormed(RecordOf(build, lines, sp[x]), page)
    {
      FlagAt(lines, sp[x].question);
      RecordWellFormed(build, lines, sp[x], page);
    }
  }

  /**
    What `extract_qa_from_text` returns for page `page`: one record per
    answered question line of the FAQ block, each carrying the page, a
    normalized question that still ends with `?` and a non-empty
    normalized answer.
   */
  lemma {:induction false} ExtractedWellFormed(fullText: string, page: int)
    ensures var lines := Lines(ExtractFaqBlock(fullText)); var r := Segments(RecordsOn(page), lines);
      && |r| == CountAnswered(QuestionFlags(lines), 0)
      && forall x :: 0 <= x < |r| ==> WellFormed(r[x], page)
  {
    var lines := Lines(ExtractFaqBlock(fullText));
    RecordsOnWellFormed(page);
    LinesClean(ExtractFaqBlock(fullText));
    SegmentsWellFormed(RecordsOn(page), lines, page);
    SegmentsSpec(RecordsOn(page), lines);
  }

  /** The lines the state machine walks are non-empty and stripped. */
  lemma {:induction false} LinesClean(block: string)
    ensures CleanLines(Lines(block))
  {
  }
}
