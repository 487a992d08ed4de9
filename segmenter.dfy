/**
 * Per-paragraph work of the formatter: collapse the paragraph's whitespace
 * into single spaces, hand the result to the sentence-boundary detector,
 * and put one sentence on each line.
 */
module SentenceSegmenter {
  import opened Text

  /** Every whitespace character is a plain space and no two whitespace
      characters are adjacent. */
  predicate IsCollapsed(s: string) {
    && (forall i :: 0 <= i < |s| && IsWhitespace(s[i]) ==> s[i] == ' ')
    && (forall i, j :: 0 <= i && j == i + 1 < |s| ==> !(IsWhitespace(s[i]) && IsWhitespace(s[j])))
  }

  /** The shape of a paragraph after whitespace collapse: collapsed and
      trimmed, hence a single line. */
  predicate IsNormalized(s: string) {
    IsCollapsed(s) && IsTrimmed(s)
  }

  /** `s.replace(/\s+/g, " ")`: each maximal run of whitespace, scanning
      from the left, becomes one space. */
  function CollapseRuns(s: string): (r: string)
    ensures IsCollapsed(r)
    ensures r == [] <==> s == []
    ensures r != [] ==> (IsWhitespace(r[0]) <==> IsWhitespace(s[0]))
    decreases |s|
  {
    if s == [] then ""
    else if IsWhitespace(s[0]) then
      var rest := TrimStart(s);
      " " + CollapseRuns(rest)
    else [s[0]] + CollapseRuns(s[1..])
  }

  /** The collapse keeps the text: only whitespace is replaced or
      dropped. */
  lemma {:induction false} NonWsCollapseRuns(s: string)
    ensures NonWs(CollapseRuns(s)) == NonWs(s)
    decreases |s|
  {
    if s != [] {
      if IsWhitespace(s[0]) {
        var rest := TrimStart(s);
        NonWsCollapseRuns(rest);
        NonWsTrimStart(s);
        assert (" " + CollapseRuns(rest))[1..] == CollapseRuns(rest);
      } else {
        NonWsCollapseRuns(s[1..]);
        assert ([s[0]] + CollapseRuns(s[1..]))[1..] == CollapseRuns(s[1..]);
      }
    }
  }

  /** A non-empty run of whitespace collapses to exactly one space. */
  lemma CollapseRunsOfBlank(w: string)
    requires w != [] && IsBlank(w)
    ensures CollapseRuns(w) == " "
  {
    TrimStartBlankThen(w, []);
    assert w + [] == w;
  }

  /** The collapse works piece by piece wherever the cut does not fall
      inside a run of whitespace. With `CollapseRunsOfBlank` and
      `CollapseRunsFixesCollapsed` this fixes the collapse of any text:
      its words in order, one space for every run between them. */
  lemma {:induction false} CollapseRunsAppend(a: string, b: string)
    requires a == [] || b == [] || !IsWhitespace(a[|a| - 1]) || !IsWhitespace(b[0])
    ensures CollapseRuns(a + b) == CollapseRuns(a) + CollapseRuns(b)
    decreases |a|
  {
    if a == [] {
      assert a + b == b;
    } else if b == [] {
      assert a + b == a;
    } else if IsWhitespace(a[0]) {
      if IsBlank(a) {
        assert (a + b)[0] == a[0];
        TrimStartBlankThen(a, b);
        CollapseRunsOfBlank(a);
      } else {
        var t := TrimStart(a);
        assert t != [] && t[|t| - 1] == a[|a| - 1];
        CollapseRunsAppend(t, b);
        CollapseRunsAppendAfterRun(a, b);
      }
    } else {
      assert a[1..] != [] ==> a[1..][|a[1..]| - 1] == a[|a| - 1];
      CollapseRunsAppend(a[1..], b);
      CollapseRunsAppendAfterChar(a, b);
    }
  }

  /** A step of `CollapseRunsAppend`: `a` opens with a run of whitespace
      that ends inside it. */
  lemma CollapseRunsAppendAfterRun(a: string, b: string)
    requires a != [] && IsWhitespace(a[0]) && !IsBlank(a)
    requires CollapseRuns(TrimStart(a) + b) == CollapseRuns(TrimStart(a)) + CollapseRuns(b)
    ensures CollapseRuns(a + b) == CollapseRuns(a) + CollapseRuns(b)
  {
    assert (a + b)[0] == a[0];
    TrimStartAppend(a, b);
    AppendAssoc(" ", CollapseRuns(TrimStart(a)), CollapseRuns(b));
  }

  /** A step of `CollapseRunsAppend`: `a` opens with a character that is
      not whitespace. */
  lemma CollapseRunsAppendAfterChar(a: string, b: string)
    requires a != [] && !IsWhitespace(a[0])
    requires CollapseRuns(a[1..] + b) == CollapseRuns(a[1..]) + CollapseRuns(b)
    ensures CollapseRuns(a + b) == CollapseRuns(a) + CollapseRuns(b)
  {
    CollapseRunsOfWordThen(a, b);
    CollapseRunsOfWord(a);
    AppendAssoc([a[0]], CollapseRuns(a[1..]), CollapseRuns(b));
  }

  /** `CollapseRunsOfWord` for `a + b` in terms of `a`. */
  lemma CollapseRunsOfWordThen(a: string, b: string)
    requires a != [] && !IsWhitespace(a[0])
    ensures CollapseRuns(a + b) == [a[0]] + CollapseRuns(a[1..] + b)
  {
    var s := a + b;
    assert s[0] == a[0] && s[1..] == a[1..] + b;
    CollapseRunsOfWord(s);
  }

  /** A character that is not whitespace is kept as it is. */
  lemma CollapseRunsOfWord(s: string)
    requires s != [] && !IsWhitespace(s[0])
    ensures CollapseRuns(s) == [s[0]] + CollapseRuns(s[1..])
  {
  }

  /** Collapsing text that is already collapsed changes nothing. */
  lemma {:induction false} CollapseRunsFixesCollapsed(s: string)
    requires IsCollapsed(s)
    ensures CollapseRuns(s) == s
    decreases |s|
  {
    if s != [] {
      var tail := s[1..];
      assert IsCollapsed(tail) by {
        forall i | 0 <= i < |tail| ensures tail[i] == s[i + 1] { }
      }
      if IsWhitespace(s[0]) {
        assert TrimStart(s) == tail by {
          assert tail == [] || !IsWhitespace(s[1]);
          assert TrimStart(tail) == tail;
        }
      }
      CollapseRunsFixesCollapsed(tail);
      assert s == [s[0]] + tail;
    }
  }

  /** Collapse keeps a blank string blank and a non-blank one non-blank. */
  lemma CollapseRunsBlank(s: string)
    ensures IsBlank(CollapseRuns(s)) <==> IsBlank(s)
  {
    if s != [] {
      var r := CollapseRuns(s);
      if IsWhitespace(s[0]) {
        var rest := TrimStart(s);
        if rest == [] {
          assert r == " ";
        } else {
          assert s[|s| - |rest|] == rest[0];
          assert r[1] == CollapseRuns(rest)[0];
        }
      }
    }
  }

  /** Replacing line breaks by spaces keeps a blank string blank and a
      non-blank one non-blank. */
  lemma {:induction false} ReplaceLineBreaksBlank(s: string)
    ensures IsBlank(ReplaceLineBreaks(s)) <==> IsBlank(s)
    decreases |s|
  {
    if s != [] {
      var r := ReplaceLineBreaks(s);
      var n := if |s| >= 2 && s[0] == '\r' && s[1] == '\n' then 2 else 1;
      var tail := s[n..];
      ReplaceLineBreaksBlank(tail);
      var c := ReplaceLineBreaks(tail);
      assert r == [r[0]] + c;
      assert IsWhitespace(r[0]) <==> IsBlank(s[..n]);
      assert s == s[..n] + tail;
      BlankAppend([r[0]], c);
      BlankAppend(s[..n], tail);
    }
  }

  lemma BlankAppend(a: string, b: string)
    ensures IsBlank(a + b) <==> IsBlank(a) && IsBlank(b)
  {
    if IsBlank(a) && IsBlank(b) {
      forall k | 0 <= k < |a + b| ensures IsWhitespace((a + b)[k]) {
        if k >= |a| { assert (a + b)[k] == b[k - |a|]; }
      }
    }
    if IsBlank(a + b) {
      forall k | 0 <= k < |a| ensures IsWhitespace(a[k]) {
        assert (a + b)[k] == a[k];
      }
      forall k | 0 <= k < |b| ensures IsWhitespace(b[k]) {
        assert (a + b)[k + |a|] == b[k];
      }
    }
  }

  /** Collapsed text holds no line feed and no carriage return. */
  lemma CollapsedHasNoLineBreak(s: string)
    requires IsCollapsed(s)
    ensures '\n' !in s && '\r' !in s
  {
    forall i | 0 <= i < |s| ensures s[i] != '\n' && s[i] != '\r' {
      if IsWhitespace(s[i]) { assert s[i] == ' '; }
    }
  }

  /** A contiguous piece of a collapsed string is collapsed. */
  lemma CollapsedSlice(s: string, a: nat, b: nat)
    requires a <= b <= |s|
    requires IsCollapsed(s)
    ensures IsCollapsed(s[a..b])
  {
    var t := s[a..b];
    assert forall i :: 0 <= i < |t| ==> t[i] == s[a + i];
  }

  lemma TrimKeepsCollapsed(s: string)
    requires IsCollapsed(s)
    ensures IsCollapsed(Trim(s))
  {
    var t := TrimStart(s);
    CollapsedSlice(s, |s| - |t|, |s|);
    assert s[|s| - |t|..|s|] == t;
    var r := TrimEnd(t);
    CollapsedSlice(t, 0, |r|);
    assert t[0..|r|] == r;
  }

  /** The whitespace collapse of one paragraph:
      `p.replace(/\r?\n/g, " ").replace(/\s+/g, " ").trim()`. The result is
      a single line with no line feed or carriage return, no leading or
      trailing whitespace and no two adjacent whitespace characters; it is
      empty exactly when the paragraph is blank. */
  function Normalize(p: string): (r: string)
    ensures IsNormalized(r)
    ensures '\n' !in r && '\r' !in r
    ensures r == [] <==> IsBlank(p)
  {
    var collapsed := CollapseRuns(ReplaceLineBreaks(p));
    var r := Trim(collapsed);
    TrimKeepsCollapsed(collapsed);
    CollapsedHasNoLineBreak(r);
    ReplaceLineBreaksBlank(p);
    CollapseRunsBlank(ReplaceLineBreaks(p));
    r
  }

  /** The collapse keeps every non-whitespace character of the paragraph,
      in order, and adds none. */
  lemma NormalizeKeepsText(p: string)
    ensures NonWs(Normalize(p)) == NonWs(p)
  {
    var replaced := ReplaceLineBreaks(p);
    NonWsReplaceLineBreaks(p);
    NonWsCollapseRuns(replaced);
    NonWsTrim(CollapseRuns(replaced));
  }

  /** Two collapsed words with any whitespace between them, line breaks
      included, come out as the two words separated by one space. */
  lemma NormalizeSeparatesWords(a: string, w: string, b: string)
    requires a != [] && b != [] && IsNormalized(a) && IsNormalized(b)
    requires w != [] && IsBlank(w)
    ensures Normalize(a + w + b) == a + " " + b
  {
    var replaced := SeparatedWordsReplaced(a, w, b);
    var w' := ReplaceLineBreaks(w);
    CollapseRunsAppend(w', b);
    CollapseRunsAppend(a, w' + b);
    CollapseRunsOfBlank(w');
    CollapseRunsFixesCollapsed(a);
    CollapseRunsFixesCollapsed(b);
    var c := a + (" " + b);
    assert CollapseRuns(replaced) == c;
    assert c[0] == a[0] && c[|c| - 1] == b[|b| - 1];
    AppendAssoc(a, " ", b);
  }

  /** The line-break replacement step of `NormalizeSeparatesWords`. */
  lemma SeparatedWordsReplaced(a: string, w: string, b: string) returns (replaced: string)
    requires a != [] && b != [] && IsNormalized(a) && IsNormalized(b)
    requires w != [] && IsBlank(w)
    ensures replaced == ReplaceLineBreaks(a + w + b)
    ensures replaced == a + (ReplaceLineBreaks(w) + b)
    ensures ReplaceLineBreaks(w) != [] && IsBlank(ReplaceLineBreaks(w))
  {
    CollapsedHasNoLineBreak(a);
    CollapsedHasNoLineBreak(b);
    assert a[|a| - 1] != '\r';
    ReplaceLineBreaksAppend(a, w + b);
    assert a + w + b == a + (w + b);
    ReplaceLineBreaksNoNewline(a);
    ReplaceLineBreaksAppend(w, b);
    ReplaceLineBreaksNoNewline(b);
    ReplaceLineBreaksBlank(w);
    ReplaceLineBreaksNonEmpty(w);
    replaced := ReplaceLineBreaks(a + w + b);
  }

  /** Normalized text is a fixed point of the collapse. */
  lemma NormalizeFixesNormalized(s: string)
    requires IsNormalized(s)
    ensures Normalize(s) == s
  {
    CollapsedHasNoLineBreak(s);
    ReplaceLineBreaksNoNewline(s);
    CollapseRunsFixesCollapsed(s);
  }

  /** Collapsing twice is collapsing once. */
  lemma NormalizeIdempotent(p: string)
    ensures Normalize(Normalize(p)) == Normalize(p)
  {
    NormalizeFixesNormalized(Normalize(p));
  }

  /** The sentence-boundary detector (`sbd.sentences` with
      `newline_boundaries: false` and `sanitize: true`), a library the
      extension calls into. */
  type Detector = string -> seq<string>

  /** A sentence as the detector hands it back: non-empty, trimmed, on one
      line. */
  predicate IsSentence(s: string) {
    s != [] && IsTrimmed(s) && '\n' !in s
  }

  /** What the model assumes of the detector on collapsed input: no
      sentences for the empty string, at least one for any other text, and
      each of them a sentence. */
  ghost predicate DetectorContract(detect: Detector) {
    forall text :: IsNormalized(text) ==>
      && (detect(text) == [] <==> text == [])
      && (forall i :: 0 <= i < |detect(text)| ==> IsSentence(detect(text)[i]))
  }

  /** One paragraph of `formatActiveEditorSelectionOrParagraph`:
      `sbd.sentences(collapsed, ...).join('\n').trim()`. */
  function FormatParagraph(p: string, detect: Detector): (r: string)
    ensures IsTrimmed(r)
  {
    Trim(Join(detect(Normalize(p)), "\n"))
  }

  /** Every line feed is followed by a character that is not whitespace, so
      no line is empty or starts with whitespace. */
  predicate EveryNewlineBeforeText(t: string) {
    forall i :: 0 <= i < |t| && t[i] == '\n' ==> i + 1 < |t| && !IsWhitespace(t[i + 1])
  }

  /** Sentences joined by line feeds: already trimmed, non-empty, and every
      line feed is followed by text. */
  lemma {:induction false} JoinSentences(sents: seq<string>)
    requires |sents| >= 1
    requires forall i :: 0 <= i < |sents| ==> IsSentence(sents[i])
    ensures Join(sents, "\n") != []
    ensures IsTrimmed(Join(sents, "\n"))
    ensures EveryNewlineBeforeText(Join(sents, "\n"))
  {
    var t := Join(sents, "\n");
    JoinEnds(sents, "\n");
    assert t[0] == sents[0][0];
    var last := sents[|sents| - 1];
    assert t[|t| - 1] == last[|last| - 1];
    if |sents| == 1 {
      assert t == sents[0];
    } else {
      var x, rest := sents[0], Join(sents[1..], "\n");
      JoinSentences(sents[1..]);
      JoinEnds(sents[1..], "\n");
      assert rest[0] == sents[1][0];
      assert t == x + "\n" + rest;
      forall i | 0 <= i < |t| && t[i] == '\n' ensures i + 1 < |t| && !IsWhitespace(t[i + 1]) {
        if i > |x| {
          assert t[i] == rest[i - |x| - 1];
          assert i + 1 < |t| ==> t[i + 1] == rest[i - |x|];
        }
      }
    }
  }

  /** A paragraph comes out as its sentences, one per line: splitting the
      result on line breaks gives exactly the detector's sentences, so it
      has one line feed fewer than there are sentences and no empty line;
      a blank paragraph comes out empty. */
  lemma FormatParagraphLines(p: string, detect: Detector)
    requires DetectorContract(detect)
    ensures var r, sents := FormatParagraph(p, detect), detect(Normalize(p));
      && (IsBlank(p) <==> r == [])
      && (!IsBlank(p) ==>
            && SplitLines(r) == sents
            && Count(r, '\n') == |sents| - 1
            && IsTrimmed(r)
            && EveryNewlineBeforeText(r))
  {
    var n := Normalize(p);
    var sents := detect(n);
    if !IsBlank(p) {
      JoinSentences(sents);
      var t := Join(sents, "\n");
      assert FormatParagraph(p, detect) == t;
      assert forall i :: 0 <= i < |sents| ==> IsLineContent(sents[i]);
      SplitLinesOfJoin(sents, "\n");
    }
  }

  /** Without assuming anything else of the detector: when no sentence holds
      a line feed, a paragraph of `n` sentences has at most `n - 1` line
      feeds, and none when there are no sentences. */
  lemma FormatParagraphNewlineBound(p: string, detect: Detector)
    requires forall i :: 0 <= i < |detect(Normalize(p))| ==> '\n' !in detect(Normalize(p))[i]
    ensures var n := |detect(Normalize(p))|;
      && (n == 0 ==> FormatParagraph(p, detect) == [])
      && (n >= 1 ==> Count(FormatParagraph(p, detect), '\n') <= n - 1)
  {
    TrimJoinNewlineBound(detect(Normalize(p)));
  }

  lemma TrimJoinNewlineBound(sents: seq<string>)
    requires forall i :: 0 <= i < |sents| ==> '\n' !in sents[i]
    ensures |sents| == 0 ==> Trim(Join(sents, "\n")) == []
    ensures |sents| >= 1 ==> Count(Trim(Join(sents, "\n")), '\n') <= |sents| - 1
  {
    if |sents| >= 1 {
      CountJoin(sents, '\n');
      CountTrim(Join(sents, "\n"), '\n');
    }
  }
}
