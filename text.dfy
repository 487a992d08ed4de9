/**
 * String primitives the extension relies on, stated over `seq<char>`:
 * JavaScript's whitespace class (`\s`, also the set `trim()` strips),
 * `trim`, `Array.prototype.join`, and the two line-break regular
 * expressions `split(/\r?\n/)` and `replace(/\r?\n/g, " ")`.
 */
module Text {

  /** The characters JavaScript's `\s` matches and `String.prototype.trim`
      removes: WhiteSpace (tab, vertical tab, form feed, space, no-break
      space, byte-order mark and the space separators of category Zs) and
      LineTerminator (line feed, carriage return, line and paragraph
      separator). */
  predicate IsWhitespace(c: char) {
    || c == '\t' || c == '\n' || c == '\U{000B}' || c == '\U{000C}' || c == '\r'
    || c == ' ' || c == '\U{00A0}' || c == '\U{1680}'
    || ('\U{2000}' <= c <= '\U{200A}')
    || c == '\U{2028}' || c == '\U{2029}' || c == '\U{202F}' || c == '\U{205F}'
    || c == '\U{3000}' || c == '\U{FEFF}'
  }

  /** A line whose `trim()` is the empty string. */
  predicate IsBlank(s: string) {
    forall i :: 0 <= i < |s| ==> IsWhitespace(s[i])
  }

  /** A string that `trim()` leaves alone. */
  predicate IsTrimmed(s: string) {
    s == [] || (!IsWhitespace(s[0]) && !IsWhitespace(s[|s| - 1]))
  }

  /** Drops the leading whitespace: the result is the suffix of `s` that
      starts at its first non-whitespace character. */
  function TrimStart(s: string): (r: string)
    ensures |r| <= |s| && r == s[|s| - |r|..]
    ensures r == [] || !IsWhitespace(r[0])
    ensures forall i :: 0 <= i < |s| - |r| ==> IsWhitespace(s[i])
  {
    if s != [] && IsWhitespace(s[0]) then TrimStart(s[1..]) else s
  }

  /** Drops the trailing whitespace: the result is the prefix of `s` that
      ends at its last non-whitespace character. */
  function TrimEnd(s: string): (r: string)
    ensures |r| <= |s| && r == s[..|r|]
    ensures r == [] || !IsWhitespace(r[|r| - 1])
    ensures forall i :: |r| <= i < |s| ==> IsWhitespace(s[i])
  {
    if s != [] && IsWhitespace(s[|s| - 1]) then TrimEnd(s[..|s| - 1]) else s
  }

  /** `String.prototype.trim`. */
  function Trim(s: string): (r: string)
    ensures IsTrimmed(r)
    ensures r == [] <==> IsBlank(s)
    ensures IsTrimmed(s) ==> r == s
  {
    var t := TrimStart(s);
    var r := TrimEnd(t);
    assert t != [] ==> r != [];
    r
  }

  /** `Trim` returns a contiguous piece of its argument. */
  lemma TrimIsSlice(s: string) returns (a: nat)
    ensures a + |Trim(s)| <= |s| && Trim(s) == s[a..a + |Trim(s)|]
  {
    var t := TrimStart(s);
    a := |s| - |t|;
    var r := TrimEnd(t);
    assert Trim(s) == r == t[..|r|];
    assert t == s[a..];
    assert s[a..][..|r|] == s[a..a + |r|];
  }

  /** Leading whitespace of text that is not blank lies within that text. */
  lemma {:induction false} TrimStartAppend(a: string, b: string)
    requires !IsBlank(a)
    ensures TrimStart(a + b) == TrimStart(a) + b
  {
    assert (a + b)[0] == a[0];
    if IsWhitespace(a[0]) {
      assert (a + b)[1..] == a[1..] + b;
      assert !IsBlank(a[1..]) by {
        var k :| 0 <= k < |a| && !IsWhitespace(a[k]);
        assert a[1..][k - 1] == a[k];
      }
      TrimStartAppend(a[1..], b);
    }
  }

  /** Blank text followed by text that starts with a non-whitespace
      character (or by nothing) trims to that text. */
  lemma {:induction false} TrimStartBlankThen(a: string, b: string)
    requires IsBlank(a)
    requires b == [] || !IsWhitespace(b[0])
    ensures TrimStart(a + b) == b
  {
    if a == [] {
      assert a + b == b;
    } else {
      assert (a + b)[0] == a[0];
      assert (a + b)[1..] == a[1..] + b;
      assert IsBlank(a[1..]) by {
        forall k | 0 <= k < |a[1..]| ensures IsWhitespace(a[1..][k]) {
          assert a[1..][k] == a[k + 1];
        }
      }
      TrimStartBlankThen(a[1..], b);
    }
  }

  /** The non-whitespace characters of `s`, in order: the text that the
      whitespace edits below keep. */
  function NonWs(s: string): string {
    if s == [] then [] else (if IsWhitespace(s[0]) then [] else [s[0]]) + NonWs(s[1..])
  }

  /** Only a blank string has no text. */
  lemma {:induction false} NonWsEmpty(s: string)
    ensures NonWs(s) == [] <==> IsBlank(s)
  {
    if s != [] {
      NonWsEmpty(s[1..]);
      assert IsBlank(s) <==> IsWhitespace(s[0]) && IsBlank(s[1..]) by {
        assert forall k :: 0 <= k < |s[1..]| ==> s[1..][k] == s[k + 1];
      }
    }
  }

  lemma {:induction false} NonWsAppend(a: string, b: string)
    ensures NonWs(a + b) == NonWs(a) + NonWs(b)
  {
    if a == [] {
      assert a + b == b;
    } else {
      assert (a + b)[0] == a[0];
      assert (a + b)[1..] == a[1..] + b;
      NonWsAppend(a[1..], b);
    }
  }

  /** Dropping leading whitespace keeps the text. */
  lemma {:induction false} NonWsTrimStart(s: string)
    ensures NonWs(TrimStart(s)) == NonWs(s)
  {
    if s != [] && IsWhitespace(s[0]) {
      NonWsTrimStart(s[1..]);
    }
  }

  /** Dropping trailing whitespace keeps the text. */
  lemma {:induction false} NonWsTrimEnd(s: string)
    ensures NonWs(TrimEnd(s)) == NonWs(s)
  {
    if s != [] && IsWhitespace(s[|s| - 1]) {
      var init, last := s[..|s| - 1], [s[|s| - 1]];
      NonWsTrimEnd(init);
      assert s == init + last;
      NonWsAppend(init, last);
      assert last[1..] == [];
    }
  }

  /** `trim()` keeps the text. */
  lemma NonWsTrim(s: string)
    ensures NonWs(Trim(s)) == NonWs(s)
  {
    NonWsTrimStart(s);
    NonWsTrimEnd(TrimStart(s));
  }

  /** Number of occurrences of `c` in `s`. */
  function Count(s: string, c: char): nat {
    if s == [] then 0 else (if s[0] == c then 1 else 0) + Count(s[1..], c)
  }

  lemma {:induction false} CountAppend(a: string, b: string, c: char)
    ensures Count(a + b, c) == Count(a, c) + Count(b, c)
  {
    if a == [] {
      assert a + b == b;
    } else {
      assert (a + b)[1..] == a[1..] + b;
      CountAppend(a[1..], b, c);
    }
  }

  lemma {:induction false} CountAbsent(s: string, c: char)
    ensures Count(s, c) == 0 <==> c !in s
  {
    if s != [] {
      CountAbsent(s[1..], c);
      assert s == [s[0]] + s[1..];
    }
  }

  /** A piece of a string never holds more occurrences than the string. */
  lemma CountSlice(s: string, a: nat, b: nat, c: char)
    requires a <= b <= |s|
    ensures Count(s[a..b], c) <= Count(s, c)
  {
    assert s == s[..a] + s[a..b] + s[b..];
    CountAppend(s[..a] + s[a..b], s[b..], c);
    CountAppend(s[..a], s[a..b], c);
  }

  /** Trimming never adds occurrences of a character. */
  lemma CountTrim(s: string, c: char)
    ensures Count(Trim(s), c) <= Count(s, c)
  {
    var t := TrimStart(s);
    assert s[|s| - |t|..|s|] == t;
    CountSlice(s, |s| - |t|, |s|, c);
    var r := TrimEnd(t);
    assert t[0..|r|] == r;
    CountSlice(t, 0, |r|, c);
  }

  /** `Array.prototype.join`: the parts with `sep` between neighbours. */
  function Join(parts: seq<string>, sep: string): string {
    if |parts| == 0 then ""
    else if |parts| == 1 then parts[0]
    else parts[0] + sep + Join(parts[1..], sep)
  }

  /** Joining starts with the first part and ends with the last one. */
  lemma {:induction false} JoinEnds(parts: seq<string>, sep: string)
    requires |parts| >= 1
    ensures |Join(parts, sep)| >= |parts[0]| && |Join(parts, sep)| >= |parts[|parts| - 1]|
    ensures Join(parts, sep)[..|parts[0]|] == parts[0]
    ensures Join(parts, sep)[|Join(parts, sep)| - |parts[|parts| - 1]|..] == parts[|parts| - 1]
  {
    if |parts| > 1 {
      JoinEnds(parts[1..], sep);
      var rest := Join(parts[1..], sep);
      assert Join(parts, sep) == parts[0] + sep + rest;
      assert parts[1..][|parts[1..]| - 1] == parts[|parts| - 1];
    }
  }

  /** Prepending a character to the first part prepends it to the join. */
  lemma JoinConsFirst(c: char, parts: seq<string>, sep: string)
    requires |parts| >= 1
    ensures Join([[c] + parts[0]] + parts[1..], sep) == [c] + Join(parts, sep)
  {
    var q := [[c] + parts[0]] + parts[1..];
    assert q[1..] == parts[1..];
  }

  /** With single-character separators and parts free of that character,
      the join holds exactly one occurrence per gap between parts. */
  lemma {:induction false} CountJoin(parts: seq<string>, c: char)
    requires |parts| >= 1
    requires forall i :: 0 <= i < |parts| ==> c !in parts[i]
    ensures Count(Join(parts, [c]), c) == |parts| - 1
  {
    CountAbsent(parts[0], c);
    if |parts| > 1 {
      CountJoin(parts[1..], c);
      CountAppend(parts[0] + [c], Join(parts[1..], [c]), c);
      CountAppend(parts[0], [c], c);
    }
  }

  /** `s.split(/\r?\n/)`: the pieces between line breaks, where a break is
      a line feed together with a carriage return right before it. */
  function SplitLines(s: string): (r: seq<string>)
    ensures |r| == Count(s, '\n') + 1
    decreases |s|
  {
    if s == [] then [""]
    else if |s| >= 2 && s[0] == '\r' && s[1] == '\n' then
      assert s[1..][1..] == s[2..];
      [""] + SplitLines(s[2..])
    else if s[0] == '\n' then [""] + SplitLines(s[1..])
    else
      var rest := SplitLines(s[1..]);
      [[s[0]] + rest[0]] + rest[1..]
  }

  /** `s.replace(/\r?\n/g, " ")`. */
  function ReplaceLineBreaks(s: string): (r: string)
    ensures '\n' !in r
    decreases |s|
  {
    if s == [] then ""
    else if |s| >= 2 && s[0] == '\r' && s[1] == '\n' then " " + ReplaceLineBreaks(s[2..])
    else if s[0] == '\n' then " " + ReplaceLineBreaks(s[1..])
    else [s[0]] + ReplaceLineBreaks(s[1..])
  }

  /** Replacing line breaks by spaces keeps the text. */
  lemma {:induction false} NonWsReplaceLineBreaks(s: string)
    ensures NonWs(ReplaceLineBreaks(s)) == NonWs(s)
    decreases |s|
  {
    if s == [] {
    } else if |s| >= 2 && s[0] == '\r' && s[1] == '\n' {
      NonWsReplaceLineBreaks(s[2..]);
      assert s[1..][1..] == s[2..];
      assert (" " + ReplaceLineBreaks(s[2..]))[1..] == ReplaceLineBreaks(s[2..]);
    } else if s[0] == '\n' {
      NonWsReplaceLineBreaks(s[1..]);
      assert (" " + ReplaceLineBreaks(s[1..]))[1..] == ReplaceLineBreaks(s[1..]);
    } else {
      NonWsReplaceLineBreaks(s[1..]);
      assert ([s[0]] + ReplaceLineBreaks(s[1..]))[1..] == ReplaceLineBreaks(s[1..]);
    }
  }

  /** The replacement works piece by piece, unless a piece ends in a
      carriage return that the next one's line feed would pair with. */
  lemma {:induction false} ReplaceLineBreaksAppend(a: string, b: string)
    requires a == [] || b == [] || a[|a| - 1] != '\r' || b[0] != '\n'
    ensures ReplaceLineBreaks(a + b) == ReplaceLineBreaks(a) + ReplaceLineBreaks(b)
    decreases |a|
  {
    var s := a + b;
    if a == [] {
      assert s == b;
    } else {
      var n := if |a| >= 2 && a[0] == '\r' && a[1] == '\n' then 2 else 1;
      var head := if n == 2 || a[0] == '\n' then " " else [a[0]];
      assert s[0] == a[0];
      assert n == 2 ==> s[1] == a[1];
      assert n == 1 && |s| >= 2 && s[0] == '\r' ==> s[1] != '\n' by {
        if |a| >= 2 { assert s[1] == a[1]; } else if b != [] { assert s[1] == b[0]; }
      }
      assert s[n..] == a[n..] + b;
      assert a[n..] != [] ==> a[n..][|a[n..]| - 1] == a[|a| - 1];
      ReplaceLineBreaksAppend(a[n..], b);
      var x, y := ReplaceLineBreaks(a[n..]), ReplaceLineBreaks(b);
      assert ReplaceLineBreaks(a) == head + x;
      assert ReplaceLineBreaks(s) == head + (x + y);
      AppendAssoc(head, x, y);
    }
  }

  lemma AppendAssoc(x: string, y: string, z: string)
    ensures (x + y) + z == x + (y + z)
  {
  }

  /** The replacement leaves non-empty text non-empty. */
  lemma ReplaceLineBreaksNonEmpty(s: string)
    requires s != []
    ensures ReplaceLineBreaks(s) != []
  {
  }

  /** The global replacement agrees with splitting on the same pattern and
      joining with the replacement text. */
  lemma {:induction false} ReplaceLineBreaksIsSplitJoin(s: string)
    ensures ReplaceLineBreaks(s) == Join(SplitLines(s), " ")
    decreases |s|
  {
    if s == [] {
    } else if |s| >= 2 && s[0] == '\r' && s[1] == '\n' {
      var t := s[2..];
      ReplaceLineBreaksIsSplitJoin(t);
      assert ReplaceLineBreaks(s) == " " + ReplaceLineBreaks(t);
      assert SplitLines(s) == [""] + SplitLines(t);
      JoinConsEmpty(SplitLines(t), " ");
    } else if s[0] == '\n' {
      var t := s[1..];
      ReplaceLineBreaksIsSplitJoin(t);
      assert ReplaceLineBreaks(s) == " " + ReplaceLineBreaks(t);
      assert SplitLines(s) == [""] + SplitLines(t);
      JoinConsEmpty(SplitLines(t), " ");
    } else {
      var t := s[1..];
      ReplaceLineBreaksIsSplitJoin(t);
      assert ReplaceLineBreaks(s) == [s[0]] + ReplaceLineBreaks(t);
      var rest := SplitLines(t);
      assert SplitLines(s) == [[s[0]] + rest[0]] + rest[1..];
      JoinConsFirst(s[0], rest, " ");
    }
  }

  /** An empty first part contributes only its separator. */
  lemma JoinConsEmpty(parts: seq<string>, sep: string)
    requires |parts| >= 1
    ensures Join([""] + parts, sep) == sep + Join(parts, sep)
  {
    assert ([""] + parts)[1..] == parts;
  }

  /** Text without a line feed is left as it is. */
  lemma {:induction false} ReplaceLineBreaksNoNewline(s: string)
    requires '\n' !in s
    ensures ReplaceLineBreaks(s) == s
    decreases |s|
  {
    if s != [] {
      assert s[1..] == s[1..] && '\n' !in s[1..] by {
        forall k | 0 <= k < |s[1..]| ensures s[1..][k] != '\n' { assert s[1..][k] == s[k + 1]; }
      }
      ReplaceLineBreaksNoNewline(s[1..]);
    }
  }

  /** A piece that a `\r?\n` split can give back unchanged. */
  predicate IsLineContent(s: string) {
    '\n' !in s && (s == [] || s[|s| - 1] != '\r')
  }

  lemma {:induction false} SplitLinesSingle(s: string)
    requires '\n' !in s
    ensures SplitLines(s) == [s]
    decreases |s|
  {
    if s != [] {
      assert '\n' !in s[1..] by {
        forall k | 0 <= k < |s[1..]| ensures s[1..][k] != '\n' { assert s[1..][k] == s[k + 1]; }
      }
      SplitLinesSingle(s[1..]);
      assert [s[0]] + s[1..] == s;
    }
  }

  /** A line break as `split(/\r?\n/)` recognises it. */
  predicate IsLineBreak(brk: string) {
    brk == "\n" || brk == "\r\n"
  }

  lemma {:induction false} SplitLinesCons(a: string, brk: string, b: string)
    requires IsLineContent(a) && IsLineBreak(brk)
    ensures SplitLines(a + brk + b) == [a] + SplitLines(b)
    decreases |a|
  {
    var s := a + brk + b;
    if a == [] {
      assert s == brk + b;
      if brk == "\r\n" {
        assert s[2..] == b;
      } else {
        assert s[1..] == b;
      }
    } else {
      assert s[0] == a[0];
      assert |a| == 1 ==> a[0] != '\r';
      assert |s| >= 2 && s[0] == '\r' ==> s[1] != '\n' by {
        if |a| >= 2 { assert s[1] == a[1]; }
      }
      assert s[1..] == a[1..] + brk + b;
      assert IsLineContent(a[1..]) by {
        forall k | 0 <= k < |a[1..]| ensures a[1..][k] != '\n' { assert a[1..][k] == a[k + 1]; }
      }
      SplitLinesCons(a[1..], brk, b);
      assert [a[0]] + a[1..] == a;
    }
  }

  /** Round trip: splitting a join of line contents by `\n` or `\r\n` on
      `\r?\n` gives the parts back. */
  lemma {:induction false} SplitLinesOfJoin(parts: seq<string>, brk: string)
    requires |parts| >= 1 && IsLineBreak(brk)
    requires forall i :: 0 <= i < |parts| ==> IsLineContent(parts[i])
    ensures SplitLines(Join(parts, brk)) == parts
  {
    if |parts| == 1 {
      SplitLinesSingle(parts[0]);
    } else {
      SplitLinesOfJoin(parts[1..], brk);
      SplitLinesCons(parts[0], brk, Join(parts[1..], brk));
    }
  }
}
