/**
 * The text pipeline of `formatActiveEditorSelectionOrParagraph`: split the
 * range's text into paragraphs on `/\r?\n\s*\r?\n/`, format each one, and
 * join the results with a blank line.
 */
module ParagraphSplit {
  import opened Text
  import opened SentenceSegmenter

  /** Length of the line break `\r?\n` at the start of `t`, 0 when none. */
  function LineBreakLength(t: string): nat {
    if |t| >= 2 && t[0] == '\r' && t[1] == '\n' then 2
    else if |t| >= 1 && t[0] == '\n' then 1
    else 0
  }

  /** Within the whitespace run at the start of `t`: the index just after
      the run's last line feed, or 0 when the run holds no line feed. */
  function RunBreakEnd(t: string): (n: nat)
    ensures n <= |t|
    decreases |t|
  {
    if t == [] || !IsWhitespace(t[0]) then 0
    else
      var r := RunBreakEnd(t[1..]);
      if r > 0 then r + 1 else if t[0] == '\n' then 1 else 0
  }

  /** Everything before `RunBreakEnd` is whitespace, the last of it a line
      feed. */
  lemma {:induction false} RunBreakEndShape(t: string)
    requires RunBreakEnd(t) > 0
    ensures t[RunBreakEnd(t) - 1] == '\n'
    ensures forall k :: 0 <= k < RunBreakEnd(t) ==> IsWhitespace(t[k])
    decreases |t|
  {
    var r := RunBreakEnd(t[1..]);
    if r > 0 {
      RunBreakEndShape(t[1..]);
      assert t[r] == t[1..][r - 1];
      forall k | 1 <= k < r + 1 ensures IsWhitespace(t[k]) {
        assert t[k] == t[1..][k - 1];
      }
    }
  }

  /** No later line feed can be reached from `RunBreakEnd` through
      whitespace. */
  lemma {:induction false} RunBreakEndGreedy(t: string, k: nat)
    requires RunBreakEnd(t) <= k < |t| && t[k] == '\n'
    ensures exists i :: RunBreakEnd(t) <= i <= k && !IsWhitespace(t[i])
    decreases |t|
  {
    if IsWhitespace(t[0]) {
      assert k >= 1;
      assert t[1..][k - 1] == t[k];
      RunBreakEndGreedy(t[1..], k - 1);
      var i :| RunBreakEnd(t[1..]) <= i <= k - 1 && !IsWhitespace(t[1..][i]);
      assert t[i + 1] == t[1..][i];
    } else {
      assert RunBreakEnd(t) <= 0 <= k && !IsWhitespace(t[0]);
    }
  }

  /** Text holding a non-whitespace character decides the run on its own,
      whatever follows it. */
  lemma {:induction false} RunBreakEndLocal(t: string, u: string)
    requires !IsBlank(t)
    ensures RunBreakEnd(t + u) == RunBreakEnd(t)
    decreases |t|
  {
    assert (t + u)[0] == t[0];
    if IsWhitespace(t[0]) {
      assert (t + u)[1..] == t[1..] + u;
      assert !IsBlank(t[1..]) by {
        var k :| 0 <= k < |t| && !IsWhitespace(t[k]);
        assert t[1..][k - 1] == t[k];
      }
      RunBreakEndLocal(t[1..], u);
    }
  }

  /** Whitespace ending in a line feed, then text or nothing: the run's
      last line feed is the one that ends the whitespace. */
  lemma {:induction false} RunBreakEndBlankThen(w: string, b: string)
    requires w != [] && IsBlank(w) && w[|w| - 1] == '\n'
    requires b == [] || !IsWhitespace(b[0])
    ensures RunBreakEnd(w + b) == |w|
    decreases |w|
  {
    var t := w + b;
    assert t[0] == w[0];
    if |w| == 1 {
      assert t[1..] == b;
    } else {
      assert t[1..] == w[1..] + b;
      assert w[1..][|w| - 2] == w[|w| - 1];
      assert IsBlank(w[1..]) by {
        forall k | 0 <= k < |w| - 1 ensures IsWhitespace(w[1..][k]) {
          assert w[1..][k] == w[k + 1];
        }
      }
      RunBreakEndBlankThen(w[1..], b);
    }
  }

  /** Whitespace that ends in a line feed lies within the run:
      `RunBreakEnd` reaches at least that line feed. */
  lemma {:induction false} RunBreakEndFound(t: string, m: nat)
    requires 0 < m <= |t| && t[m - 1] == '\n'
    requires forall k :: 0 <= k < m ==> IsWhitespace(t[k])
    ensures RunBreakEnd(t) >= m
    decreases m
  {
    if m > 1 {
      var tail := t[1..];
      assert tail[m - 2] == t[m - 1];
      forall k | 0 <= k < m - 1 ensures IsWhitespace(tail[k]) {
        assert tail[k] == t[k + 1];
      }
      RunBreakEndFound(tail, m - 1);
    }
  }

  /** Length of the match of `/\r?\n\s*\r?\n/` at the start of `t`, 0 when
      it does not match there. The greedy `\s*` takes the whole whitespace
      run after the first line break and gives back characters until a
      line feed ends the match, so a match ends just after the LAST line
      feed of that run. */
  function SeparatorLength(t: string): (n: nat)
    ensures n <= |t|
  {
    var j := LineBreakLength(t);
    if j == 0 then 0
    else
      var r := RunBreakEnd(t[j..]);
      if r == 0 then 0 else j + r
  }

  /** A match is a line break, whitespace, and a final line feed; it holds
      at least two line feeds, the second one reached through whitespace. */
  lemma SeparatorShape(t: string)
    requires SeparatorLength(t) > 0
    ensures var n := SeparatorLength(t);
      && n >= 2 && t[n - 1] == '\n' && IsBlank(t[..n])
      && (|| (t[0] == '\n' && IsWhitespace(t[1]))
          || (n >= 3 && t[0] == '\r' && t[1] == '\n' && IsWhitespace(t[2])))
  {
    var n := SeparatorLength(t);
    var j := LineBreakLength(t);
    var tail := t[j..];
    RunBreakEndShape(tail);
    assert n == j + RunBreakEnd(tail);
    assert t[n - 1] == tail[n - 1 - j];
    assert t[j] == tail[0];
    forall k | 0 <= k < n ensures IsWhitespace(t[..n][k]) {
      if k >= j { assert t[..n][k] == tail[k - j]; }
    }
  }

  /** The match is as long as it can be: no later line feed can be reached
      from its end through whitespace. */
  lemma SeparatorIsGreedy(t: string, k: nat)
    requires SeparatorLength(t) > 0
    requires SeparatorLength(t) <= k < |t| && t[k] == '\n'
    ensures !IsBlank(t[SeparatorLength(t)..k + 1])
  {
    var n := SeparatorLength(t);
    var j := LineBreakLength(t);
    var tail := t[j..];
    assert tail[k - j] == t[k];
    RunBreakEndGreedy(tail, k - j);
    var i :| RunBreakEnd(tail) <= i <= k - j && !IsWhitespace(tail[i]);
    assert t[n..k + 1][i + j - n] == tail[i];
  }

  /** Whenever the pattern can match a prefix `t[..n]` (a line break, then
      whitespace ending in a line feed), a match is found at the start of
      `t` and it covers at least that prefix. */
  lemma SeparatorFound(t: string, n: nat)
    requires 0 < LineBreakLength(t) < n <= |t|
    requires t[n - 1] == '\n'
    requires forall k :: 0 <= k < n ==> IsWhitespace(t[k])
    ensures SeparatorLength(t) >= n
  {
    var j := LineBreakLength(t);
    var tail := t[j..];
    assert tail[n - j - 1] == t[n - 1];
    forall k | 0 <= k < n - j ensures IsWhitespace(tail[k]) {
      assert tail[k] == t[k + j];
    }
    RunBreakEndFound(tail, n - j);
  }

  /** `text.split(/\r?\n\s*\r?\n/)`: the pieces between separator matches,
      found by scanning from the left. */
  function SplitParagraphs(s: string): (r: seq<string>)
    ensures |r| >= 1
    decreases |s|
  {
    if s == [] then [""]
    else
      var n := SeparatorLength(s);
      if n > 0 then [""] + SplitParagraphs(s[n..])
      else
        var rest := SplitParagraphs(s[1..]);
        [[s[0]] + rest[0]] + rest[1..]
  }

  /** No separator starts anywhere inside `s`. */
  ghost predicate SeparatorFree(s: string) {
    forall i :: 0 <= i < |s| ==> SeparatorLength(s[i..]) == 0
  }

  /** A blank-line separator as it stands between two paragraphs: a line
      break, then only whitespace, ending with a line feed, with at least
      two line feeds in all. */
  predicate IsBlankLineSeparator(sep: string) {
    && |sep| >= 2
    && IsBlank(sep)
    && sep[|sep| - 1] == '\n'
    && (sep[0] == '\n' || (|sep| >= 3 && sep[0] == '\r' && sep[1] == '\n'))
  }

  /** A paragraph that the split gives back as it is: non-empty, trimmed and
      free of separators. */
  ghost predicate IsCleanParagraph(p: string) {
    p != [] && IsTrimmed(p) && SeparatorFree(p)
  }

  /** `formatActiveEditorSelectionOrParagraph`'s text pipeline:
      `paragraphs.map(...).join('\n\n')`. */
  function FormatText(text: string, detect: Detector): string {
    Join(FormatParagraphs(SplitParagraphs(text), detect), "\n\n")
  }

  /** `paragraphs.map(p => ...)`: each paragraph formatted, in order. */
  function FormatParagraphs(ps: seq<string>, detect: Detector): (r: seq<string>)
    ensures |r| == |ps|
    ensures forall i :: 0 <= i < |ps| ==> r[i] == FormatParagraph(ps[i], detect)
  {
    if ps == [] then [] else [FormatParagraph(ps[0], detect)] + FormatParagraphs(ps[1..], detect)
  }

  /** A text ending in a non-whitespace character decides on its own
      whether a separator starts at its beginning. */
  lemma SeparatorLengthLocal(t: string, u: string)
    requires t != [] && !IsWhitespace(t[|t| - 1])
    ensures SeparatorLength(t + u) == SeparatorLength(t)
  {
    var s := t + u;
    var j := LineBreakLength(t);
    assert LineBreakLength(s) == j by {
      assert s[0] == t[0];
      if |t| >= 2 { assert s[1] == t[1]; }
    }
    if j > 0 {
      assert j < |t|;
      assert s[j..] == t[j..] + u;
      assert !IsBlank(t[j..]) by { assert t[j..][|t| - 1 - j] == t[|t| - 1]; }
      RunBreakEndLocal(t[j..], u);
    }
  }

  /** A blank-line separator followed by text (or by nothing) is matched
      as a whole. */
  lemma SeparatorLengthOfSeparator(sep: string, b: string)
    requires IsBlankLineSeparator(sep)
    requires b == [] || !IsWhitespace(b[0])
    ensures SeparatorLength(sep + b) == |sep|
  {
    var s := sep + b;
    var j := LineBreakLength(sep);
    assert LineBreakLength(s) == j && 1 <= j < |sep| by {
      assert s[0] == sep[0] && s[1] == sep[1];
    }
    var w := sep[j..];
    assert s[j..] == w + b;
    assert w[|w| - 1] == sep[|sep| - 1];
    assert IsBlank(w) by {
      forall k | 0 <= k < |w| ensures IsWhitespace(w[k]) { assert w[k] == sep[k + j]; }
    }
    RunBreakEndBlankThen(w, b);
  }

  /** Splitting never finds a separator inside separator-free text. */
  lemma {:induction false} SplitSeparatorFree(s: string)
    requires SeparatorFree(s)
    ensures SplitParagraphs(s) == [s]
    decreases |s|
  {
    if s != [] {
      assert SeparatorLength(s[0..]) == 0;
      assert s[0..] == s;
      SeparatorFreeTail(s);
      SplitSeparatorFree(s[1..]);
      assert [s[0]] + s[1..] == s;
    }
  }

  /** Where no separator starts, the split puts the first character in
      front of the first piece of the rest. */
  lemma SplitParagraphsStep(s: string, p: string, tail: seq<string>)
    requires s != [] && SeparatorLength(s) == 0
    requires SplitParagraphs(s[1..]) == [p] + tail
    ensures SplitParagraphs(s) == [[s[0]] + p] + tail
  {
    assert ([p] + tail)[1..] == tail;
  }

  /** No separator starts at any position from `k` up to, not including, `i`. */
  predicate NoSeparatorBetween(u: string, k: nat, i: nat)
    requires k <= i <= |u|
    decreases i - k
  {
    k == i || (SeparatorLength(u[k..]) == 0 && NoSeparatorBetween(u, k + 1, i))
  }

  /** `NoSeparatorBetween` says what its name says, position by position. */
  lemma {:induction false} NoSeparatorBetweenAt(u: string, k: nat, i: nat)
    requires k <= i <= |u|
    ensures NoSeparatorBetween(u, k, i) <==> forall j :: k <= j < i ==> SeparatorLength(u[j..]) == 0
    decreases i - k
  {
    if k < i {
      NoSeparatorBetweenAt(u, k + 1, i);
    }
  }

  /** The split cuts at the leftmost separator: where a match of length
      `n` starts at `i` and none starts before, the first piece is the
      text before it and the rest is the split of what follows the match.
      With `SplitSeparatorFree` for text holding no separator, this fixes
      the split of every text. */
  lemma SplitAtFirstSeparator(u: string, i: nat, n: nat)
    requires i < |u| && n == SeparatorLength(u[i..]) && n > 0
    requires NoSeparatorBetween(u, 0, i)
    ensures i + n <= |u|
    ensures SplitParagraphs(u) == [u[..i]] + SplitParagraphs(u[i + n..])
  {
    SplitFrom(u, 0, i, n);
    assert u[0..] == u;
    assert u[0..i] == u[..i];
  }

  /** `SplitAtFirstSeparator` for the suffix of `u` from `k`, by induction
      on the distance from `k` to the match. */
  lemma {:induction false} SplitFrom(u: string, k: nat, i: nat, n: nat)
    requires k <= i < |u| && n == SeparatorLength(u[i..]) && n > 0
    requires NoSeparatorBetween(u, k, i)
    ensures i + n <= |u|
    ensures SplitParagraphs(u[k..]) == [u[k..i]] + SplitParagraphs(u[i + n..])
    decreases i - k
  {
    if k == i {
      SplitAtLeadingSeparator(u[i..], n);
      assert u[i..][n..] == u[i + n..];
      assert u[i..][..0] == u[i..i];
    } else {
      SplitFrom(u, k + 1, i, n);
      SplitFirstCharBeforeSeparator(u, k, i, n);
    }
  }

  /** The base case of `SplitFrom`: a match at the start cuts off an empty
      first piece. */
  lemma SplitAtLeadingSeparator(u: string, n: nat)
    requires n == SeparatorLength(u) && n > 0
    ensures n <= |u|
    ensures SplitParagraphs(u) == [u[..0]] + SplitParagraphs(u[n..])
  {
    assert u[..0] == "";
  }

  /** The inductive step of `SplitFrom`: no separator starts at `k`, so the
      character there joins the first piece. */
  lemma SplitFirstCharBeforeSeparator(u: string, k: nat, i: nat, n: nat)
    requires k < i && i + n <= |u| && SeparatorLength(u[k..]) == 0
    requires SplitParagraphs(u[k + 1..]) == [u[k + 1..i]] + SplitParagraphs(u[i + n..])
    ensures SplitParagraphs(u[k..]) == [u[k..i]] + SplitParagraphs(u[i + n..])
  {
    assert u[k..][1..] == u[k + 1..];
    assert [u[k..][0]] + u[k + 1..i] == u[k..i];
    SplitParagraphsStep(u[k..], u[k + 1..i], SplitParagraphs(u[i + n..]));
  }

  /** A separator at the very start gives an empty first piece. */
  lemma SplitAtSeparator(sep: string, b: string)
    requires IsBlankLineSeparator(sep)
    requires b == [] || !IsWhitespace(b[0])
    ensures SplitParagraphs(sep + b) == [""] + SplitParagraphs(b)
  {
    SeparatorLengthOfSeparator(sep, b);
    assert (sep + b)[|sep|..] == b;
  }

  lemma SeparatorFreeTail(a: string)
    requires a != [] && SeparatorFree(a)
    ensures SeparatorFree(a[1..])
  {
    forall i | 0 <= i < |a[1..]| ensures SeparatorLength(a[1..][i..]) == 0 {
      assert a[1..][i..] == a[i + 1..];
    }
  }

  /** No separator starts at a non-empty separator-free paragraph that ends
      in text, whatever follows it. */
  lemma NoSeparatorAtParagraph(a: string, rest: string)
    requires a != [] && !IsWhitespace(a[|a| - 1])
    requires SeparatorFree(a)
    ensures SeparatorLength(a + rest) == 0
  {
    SeparatorLengthLocal(a, rest);
    assert a[0..] == a;
  }

  /** A paragraph, a blank-line separator and the rest: the split yields the
      paragraph and then the pieces of the rest. */
  lemma {:induction false} SplitAfterParagraph(a: string, sep: string, b: string)
    requires a == [] || !IsWhitespace(a[|a| - 1])
    requires SeparatorFree(a)
    requires IsBlankLineSeparator(sep)
    requires b == [] || !IsWhitespace(b[0])
    ensures SplitParagraphs(a + (sep + b)) == [a] + SplitParagraphs(b)
    decreases |a|
  {
    if a == [] {
      assert a + (sep + b) == sep + b;
      SplitAtSeparator(sep, b);
    } else {
      SeparatorFreeTail(a);
      assert a[1..] != [] ==> a[1..][|a[1..]| - 1] == a[|a| - 1];
      SplitAfterParagraph(a[1..], sep, b);
      FirstCharJoinsFirstPiece(a, sep + b, SplitParagraphs(b));
    }
  }

  /** No separator starts at the first character of a paragraph, so that
      character joins the first piece of the rest. */
  lemma FirstCharJoinsFirstPiece(a: string, rest: string, tail: seq<string>)
    requires a != [] && !IsWhitespace(a[|a| - 1]) && SeparatorFree(a)
    requires SplitParagraphs(a[1..] + rest) == [a[1..]] + tail
    ensures SplitParagraphs(a + rest) == [a] + tail
  {
    var s := a + rest;
    NoSeparatorAtParagraph(a, rest);
    assert s[1..] == a[1..] + rest;
    assert s[0] == a[0];
    SplitParagraphsStep(s, a[1..], tail);
    assert [a[0]] + a[1..] == a;
  }

  /** A piece the split can give back at index `i` of `n`: a clean
      paragraph anywhere, and the empty piece also at either end. */
  ghost predicate IsPieceAt(p: string, i: nat, n: nat) {
    IsCleanParagraph(p) || (p == [] && (i == 0 || i == n - 1))
  }

  /** Round trip: clean paragraphs, with possibly an empty piece first or
      last, joined with one blank line split back into the same pieces. */
  lemma {:induction false} SplitJoinParagraphs(ps: seq<string>)
    requires |ps| >= 1
    requires forall i :: 0 <= i < |ps| ==> IsPieceAt(ps[i], i, |ps|)
    ensures SplitParagraphs(Join(ps, "\n\n")) == ps
  {
    if |ps| == 1 {
      assert Join(ps, "\n\n") == ps[0];
      assert IsPieceAt(ps[0], 0, 1);
      SplitSeparatorFree(ps[0]);
    } else {
      var rest := Join(ps[1..], "\n\n");
      assert Join(ps, "\n\n") == ps[0] + ("\n\n" + rest);
      assert IsPieceAt(ps[0], 0, |ps|) && IsPieceAt(ps[1], 1, |ps|);
      if ps[1] == [] {
        assert ps[1..] == [ps[1]];
        assert rest == [];
      } else {
        JoinEnds(ps[1..], "\n\n");
        assert rest[0] == ps[1][0];
      }
      assert IsBlankLineSeparator("\n\n");
      SplitAfterParagraph(ps[0], "\n\n", rest);
      forall i | 0 <= i < |ps[1..]| ensures IsPieceAt(ps[1..][i], i, |ps[1..]|) {
        assert IsPieceAt(ps[i + 1], i + 1, |ps|);
      }
      SplitJoinParagraphs(ps[1..]);
      assert [ps[0]] + ps[1..] == ps;
    }
  }

  lemma JoinTwo(parts: seq<string>, sep: string)
    requires |parts| == 2
    ensures Join(parts, sep) == parts[0] + sep + parts[1]
  {
    assert parts[1..] == [parts[1]];
  }

  /** Text whose every line feed is followed by a non-whitespace character
      holds no separator. */
  lemma NewlinesBeforeTextAreNoSeparator(t: string)
    requires EveryNewlineBeforeText(t)
    ensures SeparatorFree(t)
  {
    forall i | 0 <= i < |t| ensures SeparatorLength(t[i..]) == 0 {
      var u := t[i..];
      if SeparatorLength(u) > 0 {
        SeparatorShape(u);
        assert false;
      }
    }
  }

  /** However many blank lines (with any whitespace on them) separate two
      paragraphs, the output separates their formatted forms by exactly
      one blank line. */
  lemma SeparatorNormalized(a: string, sep: string, b: string, detect: Detector)
    requires IsCleanParagraph(a) && IsCleanParagraph(b)
    requires IsBlankLineSeparator(sep)
    ensures FormatText(a + sep + b, detect) == FormatParagraph(a, detect) + "\n\n" + FormatParagraph(b, detect)
  {
    SplitAfterParagraph(a, sep, b);
    assert a + (sep + b) == a + sep + b;
    SplitSeparatorFree(b);
    FormatTwoParagraphs(a + sep + b, a, b, detect);
  }

  lemma FormatTwoParagraphs(text: string, a: string, b: string, detect: Detector)
    requires SplitParagraphs(text) == [a, b]
    ensures FormatText(text, detect) == FormatParagraph(a, detect) + "\n\n" + FormatParagraph(b, detect)
  {
    var fs := FormatParagraphs(SplitParagraphs(text), detect);
    JoinTwo(fs, "\n\n");
  }

  /** When the split gives more than one piece, the first piece is a
      prefix of the text and a separator starts right after it. */
  lemma {:induction false} SplitFirstPiece(u: string)
    requires |SplitParagraphs(u)| >= 2
    ensures |SplitParagraphs(u)[0]| < |u|
    ensures u[..|SplitParagraphs(u)[0]|] == SplitParagraphs(u)[0]
    ensures SeparatorLength(u[|SplitParagraphs(u)[0]|..]) > 0
    decreases |u|
  {
    assert u != [];
    if SeparatorLength(u) == 0 {
      var rest := SplitParagraphs(u[1..]);
      SplitFirstPiece(u[1..]);
      var k := |rest[0]|;
      assert SplitParagraphs(u)[0] == [u[0]] + rest[0];
      assert u[k + 1..] == u[1..][k..];
      assert u[..k + 1] == [u[0]] + u[1..][..k];
    } else {
      assert u[0..] == u;
    }
  }

  /** The first line feed of a match, and only whitespace up to it. */
  lemma FirstLineFeed(v: string) returns (m: nat)
    requires SeparatorLength(v) > 0
    ensures m < |v| && v[m] == '\n'
    ensures forall j :: 0 <= j <= m ==> IsWhitespace(v[j])
  {
    SeparatorShape(v);
    m := if v[0] == '\n' then 0 else 1;
    forall j | 0 <= j <= m ensures IsWhitespace(v[j]) {
      assert v[j] == v[..SeparatorLength(v)][j];
    }
  }

  /** A text character between the end of a match and a later line feed. */
  lemma TextBeforeLaterLineFeed(s: string, q: nat) returns (i: nat)
    requires SeparatorLength(s) > 0
    requires SeparatorLength(s) <= q < |s| && s[q] == '\n'
    ensures SeparatorLength(s) <= i <= q && !IsWhitespace(s[i])
  {
    var n := SeparatorLength(s);
    SeparatorIsGreedy(s, q);
    var d :| 0 <= d < q + 1 - n && !IsWhitespace(s[n..q + 1][d]);
    i := n + d;
  }

  /** The piece right after a separator is not blank when another
      separator follows it: the whitespace before that separator's line
      feed would have been part of the first match. */
  lemma PieceAfterSeparatorNotBlank(s: string)
    requires SeparatorLength(s) > 0
    requires |SplitParagraphs(s[SeparatorLength(s)..])| >= 2
    ensures !IsBlank(SplitParagraphs(s[SeparatorLength(s)..])[0])
  {
    var n := SeparatorLength(s);
    var u := s[n..];
    SplitFirstPiece(u);
    var p := SplitParagraphs(u)[0];
    var i := TextBetweenSeparators(s, u, |p|);
    assert p[i] == u[i];
  }

  /** Between a match at the start of `s` and a later match, starting `k`
      characters after the first one ends, there is a character that is not
      whitespace. */
  lemma TextBetweenSeparators(s: string, u: string, k: nat) returns (i: nat)
    requires SeparatorLength(s) > 0 && u == s[SeparatorLength(s)..]
    requires k < |u| && SeparatorLength(u[k..]) > 0
    ensures i < k && !IsWhitespace(u[i])
  {
    var n := SeparatorLength(s);
    var v := u[k..];
    assert v == s[n + k..];
    var m := FirstLineFeed(v);
    var q := n + k + m;
    assert s[q] == v[m];
    forall j | n + k <= j <= q ensures IsWhitespace(s[j]) {
      assert s[j] == v[j - n - k];
    }
    var t := TextBeforeLaterLineFeed(s, q);
    i := t - n;
    assert u[i] == s[t];
  }

  /** Only the first and the last piece of a split can be blank. */
  lemma {:induction false} SplitInteriorNotBlank(s: string)
    ensures forall i :: 0 < i < |SplitParagraphs(s)| - 1 ==> !IsBlank(SplitParagraphs(s)[i])
    decreases |s|
  {
    if s != [] {
      var n := SeparatorLength(s);
      if n > 0 {
        var rest := SplitParagraphs(s[n..]);
        SplitInteriorNotBlank(s[n..]);
        if |rest| >= 2 {
          PieceAfterSeparatorNotBlank(s);
        }
        assert SplitParagraphs(s) == [""] + rest;
        forall i | 0 < i < |rest| ensures (([""] + rest)[i] == rest[i - 1]) { }
      } else {
        var rest := SplitParagraphs(s[1..]);
        SplitInteriorNotBlank(s[1..]);
        assert SplitParagraphs(s) == [[s[0]] + rest[0]] + rest[1..];
        forall i | 0 < i < |rest| ensures (([[s[0]] + rest[0]] + rest[1..])[i] == rest[i]) { }
      }
    }
  }

  /** The structure of the output: splitting it again on blank lines gives
      one piece per input paragraph, namely that paragraph formatted; each
      non-blank paragraph comes out as the detector's sentences one per
      line, and a blank piece, which only the first or the last can be,
      comes out empty. Assumes the detector's contract. */
  lemma FormatTextStructure(text: string, detect: Detector)
    requires DetectorContract(detect)
    ensures var ps, out := SplitParagraphs(text), FormatText(text, detect);
      && |SplitParagraphs(out)| == |ps|
      && (forall i :: 0 <= i < |ps| ==> SplitParagraphs(out)[i] == FormatParagraph(ps[i], detect))
      && (forall i :: 0 <= i < |ps| && !IsBlank(ps[i]) ==>
            SplitLines(SplitParagraphs(out)[i]) == detect(Normalize(ps[i])))
      && (forall i :: 0 <= i < |ps| && IsBlank(ps[i]) ==>
            SplitParagraphs(out)[i] == [] && (i == 0 || i == |ps| - 1))
  {
    var ps := SplitParagraphs(text);
    var fs := FormatParagraphs(ps, detect);
    SplitInteriorNotBlank(text);
    forall i | 0 <= i < |ps|
      ensures IsPieceAt(fs[i], i, |fs|)
      ensures !IsBlank(ps[i]) ==> SplitLines(fs[i]) == detect(Normalize(ps[i]))
    {
      FormatParagraphLines(ps[i], detect);
      if !IsBlank(ps[i]) {
        NewlinesBeforeTextAreNoSeparator(fs[i]);
      }
    }
    SplitJoinParagraphs(fs);
  }
}
