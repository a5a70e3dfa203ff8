# FAQ scrapers: block isolation, question/answer segmentation, text normalization

This project models the pure text-processing core of two scrapers. One reads
the Ministry of Justice FAQ (`scrapping/scrapping.py`). The other reads the
Ministry of Commerce FAQ (`scrapping/scrappingcommerce.py`). Both take the
page text that the HTML flattener has already produced and turn it into
question/answer records.

- **FAQ block isolation.** The block starts after the first case-insensitive
  match of `Foire\s+aux\s+questions` / `FOIRE\s+AUX\s+QUESTIONS`. It ends at
  a stop marker: the Justice scraper cuts at the first occurrence of the
  literal `Structures du Ministère de la Justice`; the Commerce scraper cuts
  at the first match of `\[\s*\d+\s*\]\s*questions\s+trouvées`. If there is
  no stop marker, the block runs to the end of the text. The block is
  stripped. Without a start marker the block is empty.
- **Segmentation.** A line whose stripped form ends with `?` opens a question.
  - The Justice scraper emits one pair per question line. It rebuilds the
    block with a newline after every line and cuts answers at character
    offsets. An answer is the stripped non-blank lines up to the next
    question, joined with `"\n"`, and it may be empty.
  - The Commerce scraper runs a state machine over the stripped non-blank
    lines. It drops questions with no answer line, joins answer lines with
    `" "`, and normalizes both texts.
- **Normalization** (`normalize_text`) runs these steps in order:
  1. Apostrophe replacement.
  2. Whitespace collapsing.
  3. The letter-spacing repair `(?<!\w)((?:L\s){2,}L)(?!\w)`.
  4. Three punctuation clean-ups.
  5. A final strip.

The regular expressions are hand-written matchers.
- `Patterns` gives each search pattern three meanings:
  - a declarative one, `Accepts`;
  - a greedy one, `MatchFrom`;
  - a leftmost scan, `Search`, which models `re.search`.

  It proves that on these patterns greedy matching finds exactly the accepted
  words. That is why a matcher without backtracking is a faithful model of
  Python's engine here.
- The letter-spacing repair does need backtracking. `LetterRuns.RunAt` models
  the one-pair back-off explicitly, and `RunAtLongest` proves that it is the
  longest valid match.
- Each deleting substitution is modelled twice:
  - as the left-to-right scan of `re.sub`, producing a keep-mask;
  - as a pointwise rule.

  Lemmas show that the two agree, and `Deletions` proves what any
  whitespace-only deletion preserves.

Module layout:
- `Chars`: character classes.
- `Text`: `str` methods.
- `Patterns`: the regex matchers.
- `Blocks`: shared block isolation.
- `Justice`: `scrapping.py`.
- `Collapsing`, `LetterRuns`, `Punctuation`, `Deletions`, `Normalizer`:
  `normalize_text`.
- `Commerce`: `scrappingcommerce.py`.

The docstring of `normalize_text` (scrapping/scrappingcommerce.py:37-38)
promises to repair artificially spaced letters while keeping the real word
separators. The pattern does not tell the two apart: it joins any three or
more lone letters, so `"il y a à faire"` becomes `"il yaà faire"`. The model
follows the code. `LetterRuns.JoinKeeps` states exactly which characters the
substitution removes (a `" "` strictly inside some match), `LetterRuns.RunJoined`
states that every match is joined, and `LetterRuns.TwoLettersKept` and
`LetterRuns.WordSpaceKept` state which spaces survive.

## Model

| member | source | states |
|---|---|---|
| Text.StripPadded | scrapping/scrapping.py:65 | `str.strip()` removes whitespace only, and only from the two ends of the text |
| Text.StripUnique | scrapping/scrapping.py:65 | the stripped text is the only trimmed text the input pads, so any trimmed core surrounded by whitespace is what `strip` returns |
| Text.NonSpaceStrip | scrapping/scrappingcommerce.py:57 | stripping keeps every non-whitespace character, in order |
| Text.SplitJoin | scrapping/scrapping.py:78 | splitting the join of pieces that hold no separator gives the pieces back |
| Text.JoinSplit | scrapping/scrapping.py:78 | joining the pieces of `split` with the same separator gives the text back |
| Text.SplitPiecesLackSep | scrapping/scrapping.py:78 | no piece of `split("\n")` contains a newline |
| Text.Find | scrapping/scrapping.py:61 | `str.find` reports the first occurrence at or after the start, or none when the word does not occur |
| Text.NonBlankLinesAppend | scrapping/scrappingcommerce.py:88 | keeping the stripped non-blank lines distributes over concatenation of line lists |
| Patterns.MatchFrom | scrapping/scrapping.py:53 | soundness of the greedy matcher: every end it reports delimits a word the pattern accepts |
| Patterns.MatchFromComplete | scrapping/scrapping.py:53 | completeness: on a separated pattern the greedy matcher finds every accepted word, so it agrees with Python's backtracking search |
| Patterns.Search | scrapping/scrapping.py:53-55 | `re.search`: the reported match is leftmost and its end is the only accepting end at its start; no result means no match anywhere after the start |
| Patterns.LeftmostUnique | scrapping/scrapping.py:53-57 | the leftmost match is unique, so `m.end()` is well defined |
| Patterns.LiteralAcceptsExactly | scrapping/scrapping.py:60-61 | a case-sensitive literal pattern accepts exactly its own word |
| Patterns.SpacedWordsSeparated | scrapping/scrappingcommerce.py:68 | words joined by `\s+` form a pattern on which greedy matching is complete |
| Blocks.FindBlock | scrapping/scrappingcommerce.py:68-78 | the block is found exactly when the start marker matches; it begins at the leftmost start match and ends at the leftmost stop match after it, or at the end of the text when there is none |
| Blocks.Isolate | scrapping/scrappingcommerce.py:68-80 | empty without a start marker; otherwise the stripped text between the leftmost start match and the leftmost later stop match (or the end); trimmed, and containing no stop-marker match |
| Blocks.BlockIsUnique | scrapping/scrappingcommerce.py:72-80 | any leftmost start match and stop match describe the same block |
| Blocks.StopAbsentFromBlock | scrapping/scrappingcommerce.py:74-80 | no stop-marker match survives inside the stripped block |
| Blocks.LiteralCut | scrapping/scrapping.py:60-63 | cutting at the leftmost literal-pattern match is cutting at `str.find`'s first occurrence |
| Justice.MarkersSeparated | scrapping/scrapping.py:53-61 | both markers are patterns on which greedy matching is complete, and the footer begins with a literal |
| Justice.ExtractFaqText | scrapping/scrapping.py:48-65 | empty without `Foire\s+aux\s+questions`; otherwise the strip of the text after the first start match, cut at the first later footer occurrence; never contains the footer |
| Justice.FooterAbsent | scrapping/scrapping.py:60-65 | a text with no match of the footer pattern does not contain the footer |
| Justice.Positions | scrapping/scrapping.py:92-99 | the flagged positions, strictly increasing, every flagged position included |
| Justice.QuestionFlags | scrapping/scrapping.py:94 | a line is flagged exactly when its stripped form ends with `?` |
| Justice.QuestionIndices | scrapping/scrapping.py:92-99 | the question lines, exactly, in document order |
| Justice.SegmentPairs | scrapping/scrapping.py:92-126 | one pair per question line in document order; the question is the stripped line and ends with `?`; the answer is the non-blank stripped lines up to the next question line, joined with newlines |
| Justice.QuestionLinesSeparate | scrapping/scrapping.py:92-121 | no pair exactly when no line is a question line; lines before the first question and every answer line are not question lines |
| Justice.ExtractQaPairs | scrapping/scrapping.py:68-128 | the offset-based segmentation of the extracted block yields exactly the pairs of the line-based description |
| Justice.NoLinesNoQuestions | scrapping/scrapping.py:73-75 | an empty block yields no pair |
| Justice.ComputeOffsets | scrapping/scrapping.py:80-89 | the rebuilt text is every line followed by a newline, and each offset is the span of its line in it |
| Justice.CollectQuestions | scrapping/scrapping.py:92-99 | the `questions` list holds one entry per question line, in order, with the stripped text and the line's span |
| Justice.EntriesOf | scrapping/scrapping.py:95-99 | the entries of given positions, one for one |
| Justice.PairUp | scrapping/scrapping.py:106-126 | pairing each question with the cleaned text between its end offset and the next question's start offset gives the line-based pairs |
| Justice.PairStep | scrapping/scrapping.py:110-121 | the cleaned offset slice of one question is its line-based answer |
| Justice.AnswerBounds | scrapping/scrapping.py:110-115 | question offsets are ordered and lie inside the rebuilt text, so the slices are well defined |
| Justice.RebuildSlice | scrapping/scrapping.py:110-115 | the slice between the offsets of two lines is exactly those lines rebuilt |
| Justice.SplitRebuild | scrapping/scrapping.py:89 | splitting the rebuilt text at newlines gives the lines back, plus the empty piece after the final newline |
| Justice.CleanRebuild | scrapping/scrapping.py:117-121 | cleaning rebuilt lines yields their stripped non-blank lines joined with newlines |
| Justice.RebuildAppend | scrapping/scrapping.py:83-89 | rebuilding distributes over concatenation of line lists |
| Commerce.MarkersSeparated | scrapping/scrappingcommerce.py:68-78 | both markers are patterns on which greedy matching is complete, and the counter pattern begins with a literal |
| Commerce.ExtractFaqBlock | scrapping/scrappingcommerce.py:63-80 | empty without `FOIRE\s+AUX\s+QUESTIONS`; otherwise the strip of the text after the first start match, up to the first later `[N] questions trouvées` match or the end; trimmed, and no counter match left inside |
| Commerce.FlagAt | scrapping/scrappingcommerce.py:95 | a line is flagged exactly when it ends with `?` |
| Commerce.NextQuestionAt | scrapping/scrappingcommerce.py:94-105 | the next question line is the first flagged line at or after the position |
| Commerce.SpansAnswered | scrapping/scrappingcommerce.py:94-113 | every span is a question line followed by at least one answer line, and its answer runs to the next question line or the end |
| Commerce.SpansOrdered | scrapping/scrappingcommerce.py:94-113 | spans come in document order and do not overlap |
| Commerce.SpansCount | scrapping/scrappingcommerce.py:96-113 | one span per question line followed directly by an answer line; questions without answer lines are dropped |
| Commerce.RecordsAt | scrapping/scrappingcommerce.py:97-112 | the records are the spans' records, one for one |
| Commerce.ExtractQaFromText | scrapping/scrappingcommerce.py:83-115 | the source's state machine over the extracted block yields exactly the records of the span description |
| Commerce.Walk | scrapping/scrappingcommerce.py:90-113 | the loop over `current_q`/`current_a` followed by the final emission yields the records of the spans |
| Commerce.WalkSegments | scrapping/scrappingcommerce.py:94-113 | what the state machine emits after reading all lines is the span records |
| Commerce.FeedTracks | scrapping/scrappingcommerce.py:94-105 | after any prefix of the lines, the loop state holds the records of the spans closed so far and the open question's line with its answer lines |
| Commerce.SegmentsSpec | scrapping/scrappingcommerce.py:94-113 | as many records as answered question lines; none when no line ends with `?`; each record is built from its question line and the lines up to the next question |
| Commerce.SegmentsWellFormed | scrapping/scrappingcommerce.py:95-112 | on clean lines every record carries the page, a question ending with `?` and a non-empty answer |
| Commerce.RecordFromLines | scrapping/scrappingcommerce.py:97-101 | a stripped question line ending with `?` with non-empty answer lines normalizes to a question still ending with `?` and a non-empty answer |
| Commerce.RecordsOnWellFormed | scrapping/scrappingcommerce.py:97-112 | the record built for page `page` is well formed for every admissible question and answer |
| Commerce.ExtractedWellFormed | scrapping/scrappingcommerce.py:83-115 | the extraction yields one record per answered question line, each with the page, a normalized question ending with `?` and a non-empty normalized answer |
| Commerce.LinesClean | scrapping/scrappingcommerce.py:88 | the lines the state machine walks are non-empty and stripped |
| Collapsing.ReplaceQuote | scrapping/scrappingcommerce.py:42 | every `’` becomes `'` and every other character stays; no `’` is left |
| Collapsing.NonSpaceReplaceQuote | scrapping/scrappingcommerce.py:42 | the replacement commutes with taking the non-whitespace characters |
| Collapsing.CollapseNoDoubleSpace | scrapping/scrappingcommerce.py:43 | after collapsing no two whitespace characters are adjacent |
| Collapsing.CollapseOnlyBlanks | scrapping/scrappingcommerce.py:43 | after collapsing every whitespace character is `" "` |
| Collapsing.CollapseNonSpace | scrapping/scrappingcommerce.py:43 | collapsing keeps the non-whitespace characters, in order |
| Collapsing.CollapseChars | scrapping/scrappingcommerce.py:43 | collapsing introduces no character other than `" "` |
| Collapsing.CollapseFixes | scrapping/scrappingcommerce.py:43 | a text with single `" "` separators is left unchanged |
| Collapsing.CollapseIdempotent | scrapping/scrappingcommerce.py:43 | collapsing twice is collapsing once |
| LetterRuns.KindOf | scrapping/scrappingcommerce.py:47 | the classification agrees with `\s`, `\w`, the letter class and `" "` |
| LetterRuns.PairCountPairs | scrapping/scrappingcommerce.py:47 | the greedy `(?:L\s)*` takes every letter-space pair up to the first missing one |
| LetterRuns.RunAtLongest | scrapping/scrappingcommerce.py:46-47 | the match at a position, with the greedy repetition backing off one pair when needed, is the longest valid match there; no match means none is valid |
| LetterRuns.BackOff | scrapping/scrappingcommerce.py:47 | giving back the last of three or more pairs leaves a valid match |
| LetterRuns.JoinMaskDrops | scrapping/scrappingcommerce.py:46-50 | the substitution deletes only `" "` characters that lie strictly inside a match |
| LetterRuns.JoinDropsOnlySpace | scrapping/scrappingcommerce.py:46-50 | the repair deletes whitespace only |
| LetterRuns.RunSpaceNeighbours | scrapping/scrappingcommerce.py:47 | deleted whitespace sits between two letters, with no word character beyond them |
| LetterRuns.WordSpaceKept | scrapping/scrappingcommerce.py:46-50 | whitespace next to a word of two or more word characters is kept |
| LetterRuns.TwoLettersKept | scrapping/scrappingcommerce.py:46-50 | whitespace between two lone letters is kept unless a third lone letter (one not followed or preceded by a further word character) continues them on either side |
| LetterRuns.LeftmostRunJoined | scrapping/scrappingcommerce.py:46-50 | everything before the leftmost match is kept, and in that match (the longest one) exactly the `" "` characters are removed |
| LetterRuns.JoinKeeps | scrapping/scrappingcommerce.py:46-50 | a character survives the substitution if and only if it is not a `" "` lying strictly inside some match of the pattern |
| LetterRuns.JoinMaskExact | scrapping/scrappingcommerce.py:46-50 | the same if-and-only-if, stated over the character classes the pattern distinguishes |
| LetterRuns.RunJoined | scrapping/scrappingcommerce.py:46-50 | in every match, not only the leftmost one, exactly the `" "` characters are removed |
| LetterRuns.RunPointJoined | scrapping/scrappingcommerce.py:46-50 | a position inside a match is kept exactly when it is not a space |
| LetterRuns.RunSpaceDropped | scrapping/scrappingcommerce.py:46-50 | a scan that starts at or before a match removes every space strictly inside it |
| LetterRuns.MatchCovers | scrapping/scrappingcommerce.py:47 | the greedy match taken at a position covers every match that starts inside it |
| LetterRuns.ExtendRun | scrapping/scrappingcommerce.py:47 | a match prefix followed by a match is itself a match, so greedy repetition reaches the end of both |
| LetterRuns.RunSpaceInLongRun | scrapping/scrappingcommerce.py:47 | a space inside a match is, on at least one side, followed (or preceded) by letter, space, letter, where the far letter has no word character beyond it |
| Punctuation.BeforeMaskKeeps | scrapping/scrappingcommerce.py:53 | the scan of `re.sub(r"\s+([marks])", ...)` deletes exactly the whitespace runs followed by a mark (also used for `)` at line 55) |
| Punctuation.BeforeDropsOnlySpace | scrapping/scrappingcommerce.py:53 | the substitution deletes whitespace only |
| Punctuation.StripBeforeClean | scrapping/scrappingcommerce.py:53 | after the substitution no whitespace precedes a mark |
| Punctuation.StripBeforeFixes | scrapping/scrappingcommerce.py:53 | a text without whitespace before a mark is left unchanged |
| Punctuation.OpenMaskKeeps | scrapping/scrappingcommerce.py:54 | the scan of `re.sub(r"\(\s+", "(", ...)` deletes exactly the whitespace runs that follow a `(` |
| Punctuation.OpenDropsOnlySpace | scrapping/scrappingcommerce.py:54 | the substitution deletes whitespace only |
| Punctuation.StripAfterOpenClean | scrapping/scrappingcommerce.py:54 | after the substitution no whitespace follows a `(` |
| Punctuation.StripAfterOpenFixes | scrapping/scrappingcommerce.py:54 | a text without whitespace after a `(` is left unchanged |
| Deletions.RetainNonSpace | scrapping/scrappingcommerce.py:46-55 | deleting whitespace keeps every other character, in order |
| Deletions.RetainNoDoubleSpace | scrapping/scrappingcommerce.py:46-55 | deleting whitespace never makes two whitespace characters meet |
| Deletions.RetainOnlyBlanks | scrapping/scrappingcommerce.py:46-55 | a deletion keeps every whitespace character `" "` when the text does |
| Deletions.RetainNoSpaceBefore | scrapping/scrappingcommerce.py:53-55 | deleting whitespace never puts whitespace in front of a mark |
| Deletions.RetainNoSpaceAfter | scrapping/scrappingcommerce.py:54-55 | deleting whitespace never puts whitespace right after `(` |
| Deletions.SliceKeeps | scrapping/scrappingcommerce.py:57 | the final strip keeps each of these properties |
| Normalizer.CollapsedShaped | scrapping/scrappingcommerce.py:42-43 | after steps 1 and 2: single `" "` separators, no `’`, and the input's non-whitespace characters requoted |
| Normalizer.CleanedSpec | scrapping/scrappingcommerce.py:42-55 | before the strip the text has that shape and no whitespace before `,.;:?!` or `)` or after `(` |
| Normalizer.NormalizeSpec | scrapping/scrappingcommerce.py:35-57 | the output is trimmed, has no `’`, no double whitespace, only `" "` as whitespace, and no whitespace before `,.;:?!` or `)` or after `(`; its non-whitespace characters are the input's in order with `’` replaced by `'` |
| Normalizer.NormalizeQuestion | scrapping/scrappingcommerce.py:95-99 | a line's normal form ends with `?` exactly when the stripped line does |

## Left out

- Fetching pages: the HTTP session and headers, `session.get`, `raise_for_status` and the random delays between requests. These are network I/O and timing.
- The HTML flattener `get_text("\n", strip=True)` is an external library. The model takes its output string as input.
- Writing TXT, JSON and CSV files and console printing. These are file I/O and library serializers.
- The list of page paths, the page loop and the aggregation of page results. They only concatenate results driven by fetches.
- Chars.IsWord: Python's `\w` is exact here on Latin-1 only. Above it, only Latin Extended-A and -B letters count as word characters, so the letter-spacing repair's `(?<!\w)`/`(?!\w)` tests are approximate for other scripts.
- Chars.IsDigit: covers ASCII, Arabic-Indic and Extended Arabic-Indic digits, not every Unicode decimal digit that `\d` accepts.
- Chars.Fold: the `re.IGNORECASE` folding covers ASCII, Latin-1 and the few characters Python folds onto ASCII letters. It does not fold other scripts.
- Commerce.Walk: works over an arbitrary record builder. The normalizer enters only through `RecordsOn(page)`, which `ExtractQaFromText` supplies.
- Normalizer.Normalize: that normalizing twice equals normalizing once is not proved. Only the whitespace collapse (`CollapseIdempotent`) and the two punctuation steps (`StripBeforeFixes`, `StripAfterOpenFixes`) are proved idempotent.
- Concrete examples such as `"v e n t e s de biens"` → `"ventes de biens"` are not stated as lemmas about literal strings. The general lemmas `JoinKeeps` (exactly which characters are removed), `RunJoined` (every match is joined), `WordSpaceKept` and `TwoLettersKept` (which spaces survive) state the behaviour those examples show.
