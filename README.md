# One sentence per line — a Dafny model

The VS Code extension *one-sentence-per-line* reflows prose so that every
sentence of a paragraph sits on its own line, with paragraphs separated by
one blank line. It runs in two ways:

- on command, over the selection, or over the paragraph around the cursor;
- automatically, when a document change inserts a line feed (a paste).

This project models the extension's core in Dafny and proves properties of
that model. The core has four parts:

- **Paragraph location** (`locator.dfy`, module `ParagraphLocator`). The
  while-loops `findParagraphStart` and `findParagraphEnd` are Dafny methods
  over a document given as `seq<string>` of lines. Each is proved equal to a
  recursive reference definition and to the stop conditions of its scan
  (maximality). The lemmas also show that the anchor line is never inspected.
  The loop guard `lineAt(k).text.trim() !== ""` is written `!IsBlank(lines[k])`;
  the contract of `Text.Trim` states that the two agree.
- **Text pipeline** (`text.dfy`, `segmenter.dfy`, `paragraphs.dfy`). Pure
  functions model `trim`, `join`, and the regular expressions
  `split(/\r?\n/)`, `replace(/\r?\n/g, " ")`, `replace(/\s+/g, " ")` and
  `split(/\r?\n\s*\r?\n/)`. Each one is a leftmost scan over characters. The
  sentence detector `sbd.sentences` is a function parameter (`Detector`).
  What the model assumes of it (`DetectorContract`) appears only as a
  precondition of the lemmas that need it.
- **Paste detection** (`extension.dfy`, `Extension.ScanChanges`). The loop
  over `event.contentChanges` is a method with loop invariants. Its result
  is characterised by quantifiers: paste iff some change has a line feed,
  least start line, and greatest affected end line.
- **Suppression gate and range resolution** (`extension.dfy`). The
  module-level `suppressAutoFormat` flag is a field of the class
  `ExtensionState`. The change handler and the format command are methods
  that read and set it. The delayed reset after an edit is the method
  `EditSettled`.

The host is passed in as values: the active editor, its document and
selection, the change event and the `autoFormat` setting. Every request for
an edit comes back as a result value (`FormatOutcome`, `HandlerOutcome`).

Behaviour of the code that a reader might expect to be otherwise, and
that the model follows:

- The code has no per-document debounce, no "already formatted" check, no
  skipping of an edit whose text is unchanged, and no absorbing of the
  paragraph after a paste. `formatTimeouts` is declared but never used.
  `FormatActiveEditorSelectionOrParagraph` returns `Edit` whenever there
  is an active editor, whatever the new text is.
- Neither paragraph scan looks at the anchor line
  (`ParagraphLocator.AnchorNotInspected`). A blank anchor line is a range
  of its own only when both neighbours are blank or missing. Otherwise the
  range grows over the run of each non-blank neighbour, so between two
  non-blank lines it covers both (`ParagraphLocator.BlankAnchorExpands`).
- The change handler formats at once, inside the change notification; it
  does not wait for a quiet period.

## Model

| member | source | states |
|---|---|---|
| Text.TrimStart | one-sentence-per-line/src/extension.ts:131 | the result is the suffix of the input that starts at its first non-whitespace character; everything dropped is whitespace |
| Text.TrimEnd | one-sentence-per-line/src/extension.ts:131 | the result is the prefix of the input that ends at its last non-whitespace character; everything dropped is whitespace |
| Text.Trim | one-sentence-per-line/src/extension.ts:131 | `trim()` gives a trimmed string; it is empty exactly when the input is blank; a trimmed input is returned unchanged |
| Text.TrimIsSlice | one-sentence-per-line/src/extension.ts:131 | `trim()` returns a contiguous piece of its input |
| Text.NonWsEmpty | one-sentence-per-line/src/extension.ts:131 | a string has no non-whitespace text exactly when it is blank |
| Text.NonWsTrim | one-sentence-per-line/src/extension.ts:131 | `trim()` keeps every non-whitespace character, in order |
| Text.NonWsReplaceLineBreaks | one-sentence-per-line/src/extension.ts:131 | `replace(/\r?\n/g, " ")` keeps every non-whitespace character, in order |
| Text.CountTrim | one-sentence-per-line/src/extension.ts:134 | `trim()` never adds occurrences of a character |
| Text.CountAbsent | one-sentence-per-line/src/extension.ts:52 | `text.includes(c)` holds exactly when `c` occurs at least once |
| Text.CountSlice | one-sentence-per-line/src/extension.ts:134 | a piece of a string never holds more line feeds than the string |
| Text.CountJoin | one-sentence-per-line/src/extension.ts:134 | joining parts free of `c` with the separator `c` adds exactly one `c` per gap |
| Text.Join | one-sentence-per-line/src/extension.ts:134-136 | `Array.prototype.join`; it has no contract of its own: `JoinEnds`, `CountJoin`, `SplitLinesOfJoin` and `SplitJoinParagraphs` state what a join is |
| Text.JoinEnds | one-sentence-per-line/src/extension.ts:136 | a join starts with its first part and ends with its last part |
| Text.SplitLines | one-sentence-per-line/src/extension.ts:55 | `split(/\r?\n/)` yields one more piece than there are line feeds |
| Text.ReplaceLineBreaks | one-sentence-per-line/src/extension.ts:131 | `replace(/\r?\n/g, " ")` leaves no line feed |
| Text.ReplaceLineBreaksIsSplitJoin | one-sentence-per-line/src/extension.ts:131 | the global replacement is the same as splitting on `\r?\n` and joining with a space |
| Text.ReplaceLineBreaksNoNewline | one-sentence-per-line/src/extension.ts:131 | text without a line feed is left unchanged |
| Text.TrimStartAppend | one-sentence-per-line/src/extension.ts:131 | removing leading whitespace from `a + b` only touches `a` when `a` holds text |
| Text.TrimStartBlankThen | one-sentence-per-line/src/extension.ts:131 | leading whitespace removal passes through a blank prefix and stops at the first character that is not whitespace |
| Text.ReplaceLineBreaksAppend | one-sentence-per-line/src/extension.ts:131 | replacing `\r?\n` works piece by piece wherever the cut does not split a `\r\n` pair |
| Text.SplitLinesOfJoin | one-sentence-per-line/src/extension.ts:134 | round trip: line contents joined by `\n` or by `\r\n` split back on `\r?\n` into the same list |
| ParagraphLocator.ParagraphStart | one-sentence-per-line/src/extension.ts:156-162 | reference definition of the upward scan; it never goes below 0 or above the anchor |
| ParagraphLocator.ParagraphEnd | one-sentence-per-line/src/extension.ts:167-173 | reference definition of the downward scan; it stays at or after the anchor and inside the document |
| ParagraphLocator.ParagraphStartIsStart | one-sentence-per-line/src/extension.ts:156-162 | the start result is `<=` the anchor; every line from it to just above the anchor is non-blank; the line above it is blank or missing |
| ParagraphLocator.ParagraphEndIsEnd | one-sentence-per-line/src/extension.ts:167-173 | the end result lies between the anchor and `lineCount-1`; every line after the anchor up to it is non-blank; the line below it is blank or missing |
| ParagraphLocator.StartIsUnique | one-sentence-per-line/src/extension.ts:158 | the stop conditions of the upward scan determine its result |
| ParagraphLocator.EndIsUnique | one-sentence-per-line/src/extension.ts:169 | the stop conditions of the downward scan determine its result |
| ParagraphLocator.FindParagraphStart | one-sentence-per-line/src/extension.ts:156-162 | the while-loop returns the maximal non-blank run above the anchor, equal to the reference definition |
| ParagraphLocator.FindParagraphEnd | one-sentence-per-line/src/extension.ts:167-173 | the while-loop returns the maximal non-blank run below the anchor, equal to the reference definition |
| ParagraphLocator.AnchorNotInspected | one-sentence-per-line/src/extension.ts:156-173 | replacing the anchor line by any text changes neither scan's result |
| ParagraphLocator.BlankAnchorExpands | one-sentence-per-line/src/extension.ts:156-173 | from a blank anchor between two non-blank lines, the scans stop at lines 0 and 2, not at the anchor |
| ParagraphLocator.SameParagraph | one-sentence-per-line/src/extension.ts:156-173 | around a non-blank line the scans give a run of non-blank lines, and every line of that run gives the same run |
| SentenceSegmenter.CollapseRuns | one-sentence-per-line/src/extension.ts:131 | after `replace(/\s+/g, " ")` every whitespace character is a space and no two are adjacent; the result is empty only for empty input and starts with whitespace exactly when the input does; `NonWsCollapseRuns` states that the text itself is kept, and `CollapseRunsAppend` with `CollapseRunsOfBlank` that every run of whitespace becomes exactly one space |
| SentenceSegmenter.CollapseRunsOfBlank | one-sentence-per-line/src/extension.ts:131 | a non-empty run made only of whitespace becomes a single space |
| SentenceSegmenter.CollapseRunsAppend | one-sentence-per-line/src/extension.ts:131 | the collapse works piece by piece wherever a cut does not fall inside a whitespace run, so together with `CollapseRunsOfBlank` each run between words becomes one space and the words are kept as they are |
| SentenceSegmenter.NonWsCollapseRuns | one-sentence-per-line/src/extension.ts:131 | `replace(/\s+/g, " ")` keeps every non-whitespace character, in order, and adds none |
| SentenceSegmenter.CollapseRunsFixesCollapsed | one-sentence-per-line/src/extension.ts:131 | collapsing already-collapsed text changes nothing |
| SentenceSegmenter.CollapseRunsBlank | one-sentence-per-line/src/extension.ts:131 | collapsing keeps blank text blank and non-blank text non-blank |
| SentenceSegmenter.ReplaceLineBreaksBlank | one-sentence-per-line/src/extension.ts:131 | replacing line breaks keeps blank text blank and non-blank text non-blank |
| SentenceSegmenter.Normalize | one-sentence-per-line/src/extension.ts:131 | the collapsed paragraph has no `\n` or `\r`, no leading or trailing whitespace and no two adjacent whitespace characters; it is empty exactly when the paragraph is blank; `NormalizeKeepsText` states that the text itself is kept, and `NormalizeSeparatesWords` that any whitespace between words becomes one space |
| SentenceSegmenter.NormalizeSeparatesWords | one-sentence-per-line/src/extension.ts:131 | two collapsed non-empty texts separated by any non-empty run of whitespace, line breaks included, collapse to the two texts with one space between them |
| SentenceSegmenter.NormalizeKeepsText | one-sentence-per-line/src/extension.ts:131 | the collapsed paragraph holds exactly the paragraph's non-whitespace characters, in the same order: the collapse changes only whitespace |
| SentenceSegmenter.NormalizeFixesNormalized | one-sentence-per-line/src/extension.ts:131 | text already in collapsed form is a fixed point of the collapse |
| SentenceSegmenter.NormalizeIdempotent | one-sentence-per-line/src/extension.ts:131 | collapsing twice gives the same result as collapsing once |
| SentenceSegmenter.FormatParagraph | one-sentence-per-line/src/extension.ts:129-134 | a formatted paragraph has no leading or trailing whitespace (the final `trim()`); `FormatParagraphLines` states its lines |
| SentenceSegmenter.JoinSentences | one-sentence-per-line/src/extension.ts:134 | one or more sentences joined by `\n` give text that is non-empty and trimmed, and every line feed in it is followed by text |
| SentenceSegmenter.FormatParagraphLines | one-sentence-per-line/src/extension.ts:131-134 | a blank paragraph formats to the empty string; any other paragraph formats to its sentences one per line, so splitting the output gives exactly the sentences and it has one line feed fewer than there are sentences |
| SentenceSegmenter.FormatParagraphNewlineBound | one-sentence-per-line/src/extension.ts:134 | with no assumption on the detector beyond sentences free of line feeds: zero sentences give the empty string, and `n` sentences give at most `n-1` line feeds |
| ParagraphSplit.RunBreakEnd | one-sentence-per-line/src/extension.ts:128 | the `\s*\r?\n` part of a match stays within the text; `RunBreakEndShape`, `RunBreakEndGreedy` and `RunBreakEndFound` state which part it is |
| ParagraphSplit.RunBreakEndShape | one-sentence-per-line/src/extension.ts:128 | the `\s*\r?\n` tail of a separator match is whitespace ending in a line feed |
| ParagraphSplit.RunBreakEndGreedy | one-sentence-per-line/src/extension.ts:128 | the greedy `\s*` stops at the last line feed of the whitespace run: no later line feed is reachable through whitespace |
| ParagraphSplit.RunBreakEndFound | one-sentence-per-line/src/extension.ts:128 | whitespace that ends in a line feed is always covered: the run reaches at least that line feed |
| ParagraphSplit.SeparatorLength | one-sentence-per-line/src/extension.ts:128 | the match of `/\r?\n\s*\r?\n/` at a position stays within the text; `SeparatorShape`, `SeparatorFound` and `SeparatorIsGreedy` together state that it is the longest prefix the pattern matches, and 0 exactly when none does |
| ParagraphSplit.SeparatorShape | one-sentence-per-line/src/extension.ts:128 | a `\r?\n\s*\r?\n` match is blank, begins with a line break followed by whitespace, and ends with a line feed |
| ParagraphSplit.SeparatorIsGreedy | one-sentence-per-line/src/extension.ts:128 | the match cannot reach a later line feed through whitespace, so it is as long as possible |
| ParagraphSplit.SeparatorFound | one-sentence-per-line/src/extension.ts:128 | whenever the pattern can match a prefix (a line break, then whitespace ending in a line feed), a match is found there and covers at least that prefix |
| ParagraphSplit.SplitParagraphs | one-sentence-per-line/src/extension.ts:128 | the paragraph split yields at least one piece; `SplitAtFirstSeparator` (it cuts at the leftmost match) and `SplitSeparatorFree` (no match, one piece) determine the split of every text |
| ParagraphSplit.NoSeparatorBetweenAt | one-sentence-per-line/src/extension.ts:128 | `NoSeparatorBetween(u, k, i)` holds exactly when no match of the separator starts at any position from `k` to `i - 1` |
| ParagraphSplit.SplitAtFirstSeparator | one-sentence-per-line/src/extension.ts:128 | where a match of length `n` starts at `i` and none starts earlier, the first piece is the text before `i` and the remaining pieces are the split of the text after the match |
| ParagraphSplit.FormatParagraphs | one-sentence-per-line/src/extension.ts:129-135 | `paragraphs.map(...)` keeps the number and order of paragraphs and formats each one |
| ParagraphSplit.SplitSeparatorFree | one-sentence-per-line/src/extension.ts:128 | text with no separator inside is a single piece |
| ParagraphSplit.SplitAfterParagraph | one-sentence-per-line/src/extension.ts:128 | a paragraph, then any blank-line separator, then text: the split yields the paragraph, then the pieces of the rest |
| ParagraphSplit.SplitJoinParagraphs | one-sentence-per-line/src/extension.ts:128-136 | round trip: clean paragraphs, possibly with an empty piece first or last, joined by `\n\n` split back into the same pieces |
| ParagraphSplit.SplitFirstPiece | one-sentence-per-line/src/extension.ts:128 | when the split gives several pieces, the first is a prefix of the text and a separator starts right after it |
| ParagraphSplit.PieceAfterSeparatorNotBlank | one-sentence-per-line/src/extension.ts:128 | the piece after a separator is not blank when another separator follows it |
| ParagraphSplit.SplitInteriorNotBlank | one-sentence-per-line/src/extension.ts:128 | only the first and the last piece of the split can be blank |
| ParagraphSplit.NewlinesBeforeTextAreNoSeparator | one-sentence-per-line/src/extension.ts:128-134 | a formatted paragraph, in which every line feed is followed by text, holds no paragraph separator |
| ParagraphSplit.SeparatorNormalized | one-sentence-per-line/src/extension.ts:128-136 | between two paragraphs, any number of blank lines (with any whitespace on them) becomes exactly one blank line |
| ParagraphSplit.FormatText | one-sentence-per-line/src/extension.ts:126-136 | the text pipeline; it has no contract of its own: `FormatTextStructure` and `SeparatorNormalized` state what it does |
| ParagraphSplit.FormatTextStructure | one-sentence-per-line/src/extension.ts:126-136 | for every text: re-splitting the output on blank lines gives one piece per input paragraph, namely that paragraph formatted; each non-blank paragraph comes out as the detector's sentences one per line; a blank piece, which only the first or the last can be, comes out empty |
| Extension.RangeText | one-sentence-per-line/src/extension.ts:126 | `getText` of a whole-line range: the range's lines joined by the document's end-of-line sequence; `RangeTextLines` states the round trip |
| Extension.RangeTextLines | one-sentence-per-line/src/extension.ts:126 | splitting a range's text on `\r?\n` gives back exactly the range's lines, for either end-of-line sequence |
| Extension.ResolveRange | one-sentence-per-line/src/extension.ts:103-123 | the range is whole-line; it is the custom range if one is given; otherwise it spans from the paragraph start of the selection's first line (or the cursor line) to the paragraph end of its last line, and covers the selection |
| Extension.CursorRangeIsParagraph | one-sentence-per-line/src/extension.ts:114-122 | with the cursor on a non-blank line, the resolved range is exactly the maximal run of non-blank lines around it |
| Extension.ScanChanges | one-sentence-per-line/src/extension.ts:46-61 | `pasteDetected` holds iff some change inserts `\n`; then `minLine` is the least start line and `maxLine` the greatest `start + line feeds` among those changes, and `0 <= minLine <= maxLine`; otherwise they keep `Number.MAX_VALUE` and `-1` |
| Extension.ExtensionState.constructor | one-sentence-per-line/src/extension.ts:4 | the flag starts cleared |
| Extension.ExtensionState.FormatActiveEditorSelectionOrParagraph | one-sentence-per-line/src/extension.ts:95-140 | without an editor: no edit and the flag unchanged; otherwise the flag is set and an edit replaces the resolved range by the formatted text of that range |
| Extension.ExtensionState.EditSettled | one-sentence-per-line/src/extension.ts:141-142 | once the edit promise has resolved and the delay has passed, the flag is cleared |
| Extension.ExtensionState.OnDidChangeTextDocument | one-sentence-per-line/src/extension.ts:40-83 | never formats when auto-format is off, while the flag is set, when no change inserts `\n`, or for a document other than the active one; otherwise it fails in `lineAt` when `maxLine` is past the end, or formats the whole lines from the least start line to the greatest affected end line |
| Extension.OwnEditIsNotReformatted | one-sentence-per-line/src/extension.ts:40-142 | the notification caused by the extension's own edit is ignored as suppressed; after the edit settles, the handler is no longer suppressed |

## Left out

- VS Code plumbing is not modelled: command registration, `activate`,
  `deactivate`, console logging and the information and error
  notifications. They are host I/O with no behaviour to state.
- `toggleAutoFormat` is not modelled. It is an asynchronous write of the
  configuration to the host; the handler takes the setting as the
  parameter `autoFormatEnabled`.
- The `editor.edit(...)` promise is not modelled. The model returns the
  requested edit as a value. `EditSettled` stands for the promise resolving,
  to `true` or to `false`, followed by the 100 ms `setTimeout` that clears
  the flag; the delay is a discrete event, not time.
- A rejected edit promise is not modelled. The flag is cleared only inside
  `.then(...)`, so a rejection would leave it set and suppress every later
  automatic format.
- Extension.ExtensionState.OnDidChangeTextDocument: the selection is not
  set to the custom range and restored afterwards. The format step reads
  only the custom range, so the selection does not affect the edit.
- The sentence detector's internals (`sbd.sentences`) are not modelled. It
  is a foreign library and appears as the function parameter `detect`.
- SentenceSegmenter.FormatParagraphLines: the one-sentence-per-line
  structure is proved only for detectors that meet `DetectorContract`
  (non-empty, trimmed, single-line sentences, and none exactly for empty
  input). `FormatParagraphNewlineBound` is the weaker bound that assumes
  nothing but line-feed-free sentences.
- ParagraphSplit.FormatTextStructure: the sentences-one-per-line clause is
  stated for non-blank pieces only. A blank piece can occur only first or
  last (a range that starts or ends with a blank-line separator). It
  formats to the empty string, and `split(/\r?\n/)` of the empty string
  is `[""]` while the detector returns no sentence for it; the lemma states
  instead that such a piece comes out empty.
- The whitespace class is a fixed character set: JavaScript's WhiteSpace
  and LineTerminator characters. Changes to the Unicode space-separator
  category across versions are not modelled.
- Extension.ScanChanges: line numbers are exact integers and are required
  to be at most `Number.MAX_VALUE`. Floating-point rounding of JavaScript
  numbers is not modelled.
- Character columns are counted in characters, while VS Code counts
  UTF-16 code units. Only whole-line ranges reach `getText`, where the end
  column is the line's length in either unit, so the edit is the same.
- Extension.ExtensionState.FormatActiveEditorSelectionOrParagraph:
  `getText` is modelled only for whole-line ranges, the only ranges either
  caller passes. The document's lines are joined by its end-of-line
  sequence.
- `build.py` is not modelled. It is a packaging script that runs npm and
  vsce.
- The hello-world command is not modelled; it only shows a message.
