/**
 * The extension's decision logic: which range to format, the paste
 * detection in the document-change handler, and the module-level flag that
 * keeps the extension's own edits from triggering another format.
 * The editor, its document and the change events are values handed in by
 * the host; the flag is the one piece of state the extension owns.
 */
module Extension {
  import opened Text
  import opened ParagraphLocator
  import opened SentenceSegmenter
  import opened ParagraphSplit

  datatype Option<T> = None | Some(value: T)

  /** A zero-based line and a character offset within that line. */
  datatype Position = Position(line: nat, character: nat)

  predicate IsBefore(a: Position, b: Position) {
    a.line < b.line || (a.line == b.line && a.character < b.character)
  }

  datatype Range = Range(start: Position, end: Position)

  /** A selection is where it was started (`anchor`) and where the cursor
      is (`active`); `start` and `end` are the two in document order. */
  datatype Selection = Selection(anchor: Position, active: Position) {
    predicate IsEmpty() {
      anchor == active
    }

    function Start(): Position {
      if IsBefore(active, anchor) then active else anchor
    }

    function End(): Position {
      if IsBefore(active, anchor) then anchor else active
    }
  }

  datatype EndOfLine = LF | CRLF

  function EolText(eol: EndOfLine): string {
    if eol == LF then "\n" else "\r\n"
  }

  /** A text document: its identity, its lines without terminators, and the
      line terminator `getText` puts between them. */
  datatype Document = Document(uri: string, lines: seq<string>, eol: EndOfLine)

  datatype Editor = Editor(document: Document, selection: Selection)

  /** One entry of `event.contentChanges`: the replaced range and the
      inserted text. */
  datatype ContentChange = ContentChange(range: Range, text: string)

  datatype ChangeEvent = ChangeEvent(documentUri: string, contentChanges: seq<ContentChange>)

  predicate IsValidPosition(lines: seq<string>, p: Position) {
    p.line < |lines| && p.character <= |lines[p.line]|
  }

  /** What the host guarantees of an editor: a document has at least one
      line and the selection lies inside it. */
  predicate IsValidEditor(e: Editor) {
    && |e.document.lines| >= 1
    && IsValidPosition(e.document.lines, e.selection.anchor)
    && IsValidPosition(e.document.lines, e.selection.active)
  }

  /** A range covering whole lines: from column 0 of its first line to the
      end of its last line. */
  predicate IsWholeLineRange(lines: seq<string>, r: Range) {
    && r.start.line <= r.end.line < |lines|
    && r.start.character == 0
    && r.end.character == |lines[r.end.line]|
  }

  /** `document.getText(range)` for a whole-line range. */
  function RangeText(doc: Document, r: Range): string
    requires IsWholeLineRange(doc.lines, r)
  {
    Join(doc.lines[r.start.line..r.end.line + 1], EolText(doc.eol))
  }

  /** Splitting a range's text on `\r?\n` gives back the range's lines,
      whichever end-of-line sequence the document uses, as long as no line
      holds a line feed or ends in a carriage return. */
  lemma RangeTextLines(doc: Document, r: Range)
    requires IsWholeLineRange(doc.lines, r)
    requires forall k :: 0 <= k < |doc.lines| ==> IsLineContent(doc.lines[k])
    ensures SplitLines(RangeText(doc, r)) == doc.lines[r.start.line..r.end.line + 1]
  {
    var ls := doc.lines[r.start.line..r.end.line + 1];
    assert forall i :: 0 <= i < |ls| ==> ls[i] == doc.lines[r.start.line + i];
    SplitLinesOfJoin(ls, EolText(doc.eol));
  }

  /** The range `formatActiveEditorSelectionOrParagraph` works on: the
      custom range when there is one; otherwise whole lines from the start
      of the paragraph around the selection's first line to the end of the
      paragraph around its last line, both lines being the cursor's line
      when the selection is empty. */
  ghost predicate IsResolvedRange(editor: Editor, customRange: Option<Range>, r: Range)
    requires IsValidEditor(editor)
  {
    var lines, sel := editor.document.lines, editor.selection;
    && IsWholeLineRange(lines, r)
    && (customRange.Some? ==> r == customRange.value)
    && (customRange.None? && !sel.IsEmpty() ==>
          && r.start.line == ParagraphStart(lines, sel.Start().line)
          && r.end.line == ParagraphEnd(lines, sel.End().line))
    && (customRange.None? && sel.IsEmpty() ==>
          && r.start.line == ParagraphStart(lines, sel.active.line)
          && r.end.line == ParagraphEnd(lines, sel.active.line))
  }

  /** Range resolution of `formatActiveEditorSelectionOrParagraph`. Without
      a custom range the result is whole-line and covers the selection. */
  method ResolveRange(editor: Editor, customRange: Option<Range>) returns (range: Range)
    requires IsValidEditor(editor)
    requires customRange.Some? ==> IsWholeLineRange(editor.document.lines, customRange.value)
    ensures IsResolvedRange(editor, customRange, range)
    ensures customRange.None? ==>
      range.start.line <= editor.selection.Start().line && editor.selection.End().line <= range.end.line
  {
    var document := editor.document;
    if customRange.Some? {
      range := customRange.value;
    } else {
      var selection := editor.selection;
      if !selection.IsEmpty() {
        var startLine := FindParagraphStart(document.lines, selection.Start().line);
        var endLine := FindParagraphEnd(document.lines, selection.End().line);
        range := Range(Position(startLine, 0), Position(endLine, |document.lines[endLine]|));
      } else {
        var currentLine := selection.active.line;
        var startLine := FindParagraphStart(document.lines, currentLine);
        var endLine := FindParagraphEnd(document.lines, currentLine);
        range := Range(Position(startLine, 0), Position(endLine, |document.lines[endLine]|));
      }
    }
  }

  /** When the cursor sits on a non-blank line and nothing is selected, the
      resolved range is exactly the maximal run of non-blank lines around
      it. */
  lemma CursorRangeIsParagraph(editor: Editor, r: Range)
    requires IsValidEditor(editor) && editor.selection.IsEmpty()
    requires !IsBlank(editor.document.lines[editor.selection.active.line])
    requires IsResolvedRange(editor, None, r)
    ensures forall k :: r.start.line <= k <= r.end.line ==> !IsBlank(editor.document.lines[k])
    ensures r.start.line == 0 || IsBlank(editor.document.lines[r.start.line - 1])
    ensures r.end.line == |editor.document.lines| - 1 || IsBlank(editor.document.lines[r.end.line + 1])
  {
    var lines, line := editor.document.lines, editor.selection.active.line;
    SameParagraph(lines, line, line);
    ParagraphStartIsStart(lines, line);
    ParagraphEndIsEnd(lines, line);
  }

  /** `Number.MAX_VALUE`, the initial value of `minLine`, as an exact
      integer: (2^53 - 1) * 2^971. */
  const NumberMaxValue: int := 0xfffffffffffff800_0000000000000000_0000000000000000_0000000000000000_0000000000000000_0000000000000000_0000000000000000_0000000000000000_0000000000000000_0000000000000000_0000000000000000_0000000000000000_0000000000000000_0000000000000000_0000000000000000_0000000000000000

  /** A change counts as a paste when its inserted text holds a line feed. */
  predicate IsPaste(c: ContentChange) {
    '\n' in c.text
  }

  /** The last line the inserted text reaches: its start line plus the
      number of line feeds it holds. */
  function AffectedEnd(c: ContentChange): int {
    c.range.start.line + Count(c.text, '\n')
  }

  ghost predicate HasPaste(changes: seq<ContentChange>, n: nat)
    requires n <= |changes|
  {
    exists i :: 0 <= i < n && IsPaste(changes[i])
  }

  /** `m` is the least start line among the pastes in `changes[..n]`. */
  ghost predicate IsLeastStart(changes: seq<ContentChange>, n: nat, m: int)
    requires n <= |changes|
  {
    && (exists i :: 0 <= i < n && IsPaste(changes[i]) && changes[i].range.start.line == m)
    && (forall i :: 0 <= i < n && IsPaste(changes[i]) ==> m <= changes[i].range.start.line)
  }

  /** `m` is the greatest affected end line among the pastes in
      `changes[..n]`. */
  ghost predicate IsGreatestEnd(changes: seq<ContentChange>, n: nat, m: int)
    requires n <= |changes|
  {
    && (exists i :: 0 <= i < n && IsPaste(changes[i]) && AffectedEnd(changes[i]) == m)
    && (forall i :: 0 <= i < n && IsPaste(changes[i]) ==> AffectedEnd(changes[i]) <= m)
  }

  function Min(a: int, b: int): int { if a <= b then a else b }
  function Max(a: int, b: int): int { if a >= b then a else b }

  /** The loop over `event.contentChanges`: `pasteDetected` says whether
      some change inserts a line feed; if so, `minLine` is the least start
      line and `maxLine` the greatest `start + pieces - 1` over those
      changes, where `pieces` is the length of `text.split(/\r?\n/)`. */
  method ScanChanges(changes: seq<ContentChange>) returns (pasteDetected: bool, minLine: int, maxLine: int)
    requires forall i :: 0 <= i < |changes| ==> changes[i].range.start.line <= NumberMaxValue
    ensures pasteDetected <==> HasPaste(changes, |changes|)
    ensures pasteDetected ==> IsLeastStart(changes, |changes|, minLine)
    ensures pasteDetected ==> IsGreatestEnd(changes, |changes|, maxLine)
    ensures pasteDetected ==> 0 <= minLine <= maxLine
    ensures !pasteDetected ==> minLine == NumberMaxValue && maxLine == -1
  {
    pasteDetected := false;
    minLine := NumberMaxValue;
    maxLine := -1;
    ghost var minAt, maxAt := 0, 0;
    for k := 0 to |changes|
      invariant pasteDetected <==> HasPaste(changes, k)
      invariant !pasteDetected ==> minLine == NumberMaxValue && maxLine == -1
      invariant pasteDetected ==> 0 <= minAt < k && IsPaste(changes[minAt]) && changes[minAt].range.start.line == minLine
      invariant pasteDetected ==> 0 <= maxAt < k && IsPaste(changes[maxAt]) && AffectedEnd(changes[maxAt]) == maxLine
      invariant forall i :: 0 <= i < k && IsPaste(changes[i]) ==> minLine <= changes[i].range.start.line
      invariant forall i :: 0 <= i < k && IsPaste(changes[i]) ==> AffectedEnd(changes[i]) <= maxLine
    {
      var change := changes[k];
      if '\n' in change.text {
        pasteDetected := true;
        var insertedLines := |SplitLines(change.text)|;
        var changeStart := change.range.start.line;
        var changeEnd := changeStart + insertedLines - 1;
        if changeStart <= minLine { minAt := k; }
        if changeEnd >= maxLine { maxAt := k; }
        minLine := Min(minLine, changeStart);
        maxLine := Max(maxLine, changeEnd);
      }
    }
    if pasteDetected {
      assert changes[minAt].range.start.line <= AffectedEnd(changes[minAt]) <= maxLine;
    }
  }

  /** Why the change handler did not format. */
  datatype IgnoreReason = AutoFormatDisabled | Suppressed | NoLineBreakInserted | NotActiveDocument

  /** What one document-change notification leads to. `LineOutOfRange` is
      `lineAt(maxLine)` throwing because the computed last line is not in
      the document. */
  datatype HandlerOutcome =
    | Ignored(reason: IgnoreReason)
    | LineOutOfRange(line: int)
    | Formatted(range: Range, newText: string)

  /** What `formatActiveEditorSelectionOrParagraph` does: nothing without an
      editor, otherwise one edit replacing `range` by `newText`. */
  datatype FormatOutcome = NoActiveEditor | Edit(range: Range, newText: string)

  predicate IsActiveDocument(activeEditor: Option<Editor>, uri: string) {
    activeEditor.Some? && activeEditor.value.document.uri == uri
  }

  /** The extension's module-level state: the `suppressAutoFormat` flag. */
  class ExtensionState {
    var suppressAutoFormat: bool

    constructor ()
      ensures !suppressAutoFormat
    {
      suppressAutoFormat := false;
    }

    /** `formatActiveEditorSelectionOrParagraph`: resolve the range, format
        its text, raise the flag, and request the edit. The edit is
        requested whatever the new text is. */
    method FormatActiveEditorSelectionOrParagraph(activeEditor: Option<Editor>, customRange: Option<Range>, detect: Detector)
      returns (outcome: FormatOutcome)
      requires activeEditor.Some? ==> IsValidEditor(activeEditor.value)
      requires activeEditor.Some? && customRange.Some? ==>
        IsWholeLineRange(activeEditor.value.document.lines, customRange.value)
      modifies this
      ensures activeEditor.None? ==> outcome == NoActiveEditor && suppressAutoFormat == old(suppressAutoFormat)
      ensures activeEditor.Some? ==>
        && suppressAutoFormat
        && outcome.Edit?
        && IsResolvedRange(activeEditor.value, customRange, outcome.range)
        && outcome.newText == FormatText(RangeText(activeEditor.value.document, outcome.range), detect)
    {
      if activeEditor.None? {
        return NoActiveEditor;
      }
      var editor := activeEditor.value;
      var document := editor.document;
      var range := ResolveRange(editor, customRange);
      var originalText := RangeText(document, range);
      var formattedText := FormatText(originalText, detect);
      suppressAutoFormat := true;
      outcome := Edit(range, formattedText);
    }

    /** The edit promise has resolved, to success or to failure, and the
        delay after it has passed: the flag is cleared. A rejected promise
        never reaches this point and leaves the flag set. */
    method EditSettled()
      modifies this
      ensures !suppressAutoFormat
    {
      suppressAutoFormat := false;
    }

    /** The `onDidChangeTextDocument` handler. It never formats when
        auto-format is off, while the flag is raised, when no change inserts
        a line feed, or when the event is not about the active editor's
        document; otherwise it formats the whole lines from the least start
        line to the greatest affected end line of the pastes. */
    method OnDidChangeTextDocument(autoFormatEnabled: bool, event: ChangeEvent, activeEditor: Option<Editor>, detect: Detector)
      returns (outcome: HandlerOutcome)
      requires forall i :: 0 <= i < |event.contentChanges| ==>
        event.contentChanges[i].range.start.line <= NumberMaxValue
      requires activeEditor.Some? ==> IsValidEditor(activeEditor.value)
      modifies this
      ensures outcome.Formatted? ==> suppressAutoFormat
      ensures !outcome.Formatted? ==> suppressAutoFormat == old(suppressAutoFormat)
      ensures !autoFormatEnabled ==> outcome == Ignored(AutoFormatDisabled)
      ensures autoFormatEnabled && old(suppressAutoFormat) ==> outcome == Ignored(Suppressed)
      ensures autoFormatEnabled && !old(suppressAutoFormat) ==>
        var changes := event.contentChanges;
        && (!HasPaste(changes, |changes|) ==> outcome == Ignored(NoLineBreakInserted))
        && (HasPaste(changes, |changes|) && !IsActiveDocument(activeEditor, event.documentUri) ==>
              outcome == Ignored(NotActiveDocument))
        && (HasPaste(changes, |changes|) && IsActiveDocument(activeEditor, event.documentUri) ==>
              outcome.LineOutOfRange? || outcome.Formatted?)
      ensures outcome.LineOutOfRange? ==>
        && IsActiveDocument(activeEditor, event.documentUri)
        && IsGreatestEnd(event.contentChanges, |event.contentChanges|, outcome.line)
        && outcome.line >= |activeEditor.value.document.lines|
      ensures outcome.Formatted? ==>
        var changes, doc := event.contentChanges, activeEditor.value.document;
        && IsActiveDocument(activeEditor, event.documentUri)
        && IsWholeLineRange(doc.lines, outcome.range)
        && IsLeastStart(changes, |changes|, outcome.range.start.line)
        && IsGreatestEnd(changes, |changes|, outcome.range.end.line)
        && outcome.newText == FormatText(RangeText(doc, outcome.range), detect)
    {
      if !autoFormatEnabled {
        return Ignored(AutoFormatDisabled);
      }
      if suppressAutoFormat {
        return Ignored(Suppressed);
      }
      var pasteDetected, minLine, maxLine := ScanChanges(event.contentChanges);
      if !pasteDetected {
        return Ignored(NoLineBreakInserted);
      }
      if activeEditor.None? || activeEditor.value.document.uri != event.documentUri {
        return Ignored(NotActiveDocument);
      }
      var editor := activeEditor.value;
      if maxLine >= |editor.document.lines| {
        return LineOutOfRange(maxLine);
      }
      var customRange := Range(Position(minLine, 0), Position(maxLine, |editor.document.lines[maxLine]|));
      var result := FormatActiveEditorSelectionOrParagraph(activeEditor, Some(customRange), detect);
      outcome := Formatted(result.range, result.newText);
    }
  }

  /** The life of the flag across three notifications: the change
      notification caused by the extension's own edit is ignored, and once
      that edit has settled the handler reacts again. */
  method OwnEditIsNotReformatted(paste: ChangeEvent, echo: ChangeEvent, later: ChangeEvent, editor: Editor, detect: Detector)
    returns (first: HandlerOutcome, second: HandlerOutcome, third: HandlerOutcome)
    requires IsValidEditor(editor)
    requires forall i :: 0 <= i < |paste.contentChanges| ==> paste.contentChanges[i].range.start.line <= NumberMaxValue
    requires forall i :: 0 <= i < |echo.contentChanges| ==> echo.contentChanges[i].range.start.line <= NumberMaxValue
    requires forall i :: 0 <= i < |later.contentChanges| ==> later.contentChanges[i].range.start.line <= NumberMaxValue
    ensures first.Formatted? ==> second == Ignored(Suppressed)
    ensures !first.Formatted? ==> second != Ignored(Suppressed)
    ensures third != Ignored(Suppressed)
  {
    var state := new ExtensionState();
    first := state.OnDidChangeTextDocument(true, paste, Some(editor), detect);
    second := state.OnDidChangeTextDocument(true, echo, Some(editor), detect);
    state.EditSettled();
    third := state.OnDidChangeTextDocument(true, later, Some(editor), detect);
  }
}
