/**
 * Paragraph location: from an anchor line, scan outward over neighbouring
 * lines whose trimmed text is non-empty. A document is its sequence of
 * lines (without line terminators).
 */
module ParagraphLocator {
  import opened Text

  /** Reference definition of the upward scan: the first line of the run of
      non-blank lines that ends just above `line`. */
  function ParagraphStart(lines: seq<string>, line: nat): (s: nat)
    requires line <= |lines|
    ensures s <= line
    decreases line
  {
    if line == 0 || IsBlank(lines[line - 1]) then line else ParagraphStart(lines, line - 1)
  }

  /** Reference definition of the downward scan: the last line of the run of
      non-blank lines that starts just below `line`. */
  function ParagraphEnd(lines: seq<string>, line: nat): (e: nat)
    ensures line <= e
    ensures line < |lines| ==> e < |lines|
    decreases |lines| - line
  {
    if line + 1 >= |lines| || IsBlank(lines[line + 1]) then line else ParagraphEnd(lines, line + 1)
  }

  /** `s` is where the upward scan from `line` stops: every line from `s`
      to just above `line` is non-blank, and the line above `s` is blank or
      does not exist. The anchor line itself is not constrained. */
  ghost predicate IsStartOf(lines: seq<string>, line: nat, s: nat)
    requires line <= |lines|
  {
    && s <= line
    && (forall k :: s <= k < line ==> !IsBlank(lines[k]))
    && (s == 0 || IsBlank(lines[s - 1]))
  }

  /** `e` is where the downward scan from `line` stops: every line just
      below `line` up to `e` is non-blank, and the line below `e` is blank
      or does not exist. */
  ghost predicate IsEndOf(lines: seq<string>, line: nat, e: nat)
  {
    && line <= e
    && (line < |lines| ==> e < |lines|)
    && (forall k :: line < k <= e ==> k < |lines| && !IsBlank(lines[k]))
    && (e + 1 >= |lines| || IsBlank(lines[e + 1]))
  }

  lemma {:induction false} ParagraphStartIsStart(lines: seq<string>, line: nat)
    requires line <= |lines|
    ensures IsStartOf(lines, line, ParagraphStart(lines, line))
    decreases line
  {
    if line > 0 && !IsBlank(lines[line - 1]) {
      ParagraphStartIsStart(lines, line - 1);
    }
  }

  lemma {:induction false} ParagraphEndIsEnd(lines: seq<string>, line: nat)
    ensures IsEndOf(lines, line, ParagraphEnd(lines, line))
    decreases |lines| - line
  {
    if line + 1 < |lines| && !IsBlank(lines[line + 1]) {
      ParagraphEndIsEnd(lines, line + 1);
    }
  }

  /** The stopping conditions of the upward scan determine its result. */
  lemma StartIsUnique(lines: seq<string>, line: nat, s: nat)
    requires line <= |lines|
    requires IsStartOf(lines, line, s)
    ensures s == ParagraphStart(lines, line)
  {
    ParagraphStartIsStart(lines, line);
    var s' := ParagraphStart(lines, line);
    if s < s' {
      assert false;
    } else if s' < s {
      assert false;
    }
  }

  /** The stopping conditions of the downward scan determine its result. */
  lemma EndIsUnique(lines: seq<string>, line: nat, e: nat)
    requires IsEndOf(lines, line, e)
    ensures e == ParagraphEnd(lines, line)
  {
    ParagraphEndIsEnd(lines, line);
    var e' := ParagraphEnd(lines, line);
    if e < e' {
      assert false;
    } else if e' < e {
      assert false;
    }
  }

  /** `findParagraphStart`: step up while the line above has non-empty
      trimmed text (`Trim(l) != ""` is `!IsBlank(l)`, by `Trim`'s
      contract). */
  method FindParagraphStart(lines: seq<string>, lineNumber: nat) returns (startLine: nat)
    requires lineNumber <= |lines|
    ensures IsStartOf(lines, lineNumber, startLine)
    ensures startLine == ParagraphStart(lines, lineNumber)
  {
    startLine := lineNumber;
    while startLine > 0 && !IsBlank(lines[startLine - 1])
      invariant startLine <= lineNumber
      invariant forall k :: startLine <= k < lineNumber ==> !IsBlank(lines[k])
      invariant ParagraphStart(lines, startLine) == ParagraphStart(lines, lineNumber)
    {
      startLine := startLine - 1;
    }
  }

  /** `findParagraphEnd`: step down while there is a next line and its
      trimmed text is non-empty. */
  method FindParagraphEnd(lines: seq<string>, lineNumber: nat) returns (endLine: nat)
    ensures IsEndOf(lines, lineNumber, endLine)
    ensures endLine == ParagraphEnd(lines, lineNumber)
  {
    endLine := lineNumber;
    while endLine < |lines| - 1 && !IsBlank(lines[endLine + 1])
      invariant lineNumber <= endLine
      invariant lineNumber < |lines| ==> endLine < |lines|
      invariant forall k :: lineNumber < k <= endLine ==> k < |lines| && !IsBlank(lines[k])
      invariant ParagraphEnd(lines, endLine) == ParagraphEnd(lines, lineNumber)
    {
      endLine := endLine + 1;
    }
  }

  /** Neither scan reads the anchor line: replacing it by any text leaves
      both results unchanged. */
  lemma {:induction false} AnchorNotInspected(lines: seq<string>, line: nat, text: string)
    requires line < |lines|
    ensures ParagraphStart(lines[line := text], line) == ParagraphStart(lines, line)
    ensures ParagraphEnd(lines[line := text], line) == ParagraphEnd(lines, line)
  {
    StartBelowIgnores(lines, line, line, text);
    EndAboveIgnores(lines, line, line, text);
  }

  /** A blank anchor line does not stop the scans: between two non-blank
      lines, the range grows over both neighbours. */
  lemma BlankAnchorExpands()
    ensures ParagraphStart(["a", "", "b"], 1) == 0
    ensures ParagraphEnd(["a", "", "b"], 1) == 2
  {
    var lines: seq<string> := ["a", "", "b"];
    assert !IsBlank(lines[0]) && !IsBlank(lines[2]) by {
      assert lines[0][0] == 'a' && lines[2][0] == 'b';
    }
  }

  lemma {:induction false} StartBelowIgnores(lines: seq<string>, k: nat, line: nat, text: string)
    requires k <= line < |lines|
    ensures ParagraphStart(lines[line := text], k) == ParagraphStart(lines, k)
    decreases k
  {
    if k > 0 {
      StartBelowIgnores(lines, k - 1, line, text);
    }
  }

  lemma {:induction false} EndAboveIgnores(lines: seq<string>, k: nat, line: nat, text: string)
    requires line <= k
    requires line < |lines|
    ensures ParagraphEnd(lines[line := text], k) == ParagraphEnd(lines, k)
    decreases |lines| - k
  {
    if k + 1 < |lines| {
      EndAboveIgnores(lines, k + 1, line, text);
    }
  }

  /** Around a non-blank line, the two scans give the maximal run of
      non-blank lines containing it, and every line of that run locates the
      same run. */
  lemma SameParagraph(lines: seq<string>, line: nat, other: nat)
    requires line < |lines| && !IsBlank(lines[line])
    requires ParagraphStart(lines, line) <= other <= ParagraphEnd(lines, line)
    ensures forall k :: ParagraphStart(lines, line) <= k <= ParagraphEnd(lines, line) ==> !IsBlank(lines[k])
    ensures ParagraphStart(lines, other) == ParagraphStart(lines, line)
    ensures ParagraphEnd(lines, other) == ParagraphEnd(lines, line)
  {
    var s, e := ParagraphStart(lines, line), ParagraphEnd(lines, line);
    ParagraphStartIsStart(lines, line);
    ParagraphEndIsEnd(lines, line);
    assert IsStartOf(lines, other, s);
    StartIsUnique(lines, other, s);
    assert IsEndOf(lines, other, e);
    EndIsUnique(lines, other, e);
  }
}
