/**
 * The search engine of go-grep (cmd/grep/main.go): choosing the matcher,
 * selecting lines, count mode, context windows and the rendering of each
 * emitted line. The regular-expression engine itself is a parameter: a
 * compiled pattern is a predicate on lines.
 */
module Grep {
  import opened Wrappers
  import opened Decimal
  import Text

  /** What getRegexp hands to the regular-expression compiler. */
  datatype Matcher =
    | Literal(text: string)       // regexp.QuoteMeta(pattern): the pattern with every metacharacter escaped
    | Expression(source: string)  // a regular expression, possibly prefixed with the (?i) flag

  /** Go's regexp engine: whether the expression `source` matches somewhere in `line`. */
  type RegexEngine = (string, string) -> bool

  const CaseInsensitive: string := "(?i)"

  /** getRegexp: the strategy chosen by -F and -i. */
  function GetRegexp(fixed: bool, pattern: string, ignoreCase: bool): (m: Matcher)
    ensures m.Literal? <==> fixed
    ensures m.Literal? ==> m.text == pattern
    ensures m.Expression? ==> m.source == (if ignoreCase then CaseInsensitive else "") + pattern
  {
    if fixed then Literal(pattern)
    else if ignoreCase then Expression(CaseInsensitive + pattern)
    else Expression(pattern)
  }

  /** re.MatchString: an unanchored search for the compiled pattern in the line. */
  function MatchString(m: Matcher, regex: RegexEngine, line: string): (matched: bool)
    ensures m.Literal? ==> (matched <==> exists i :: Text.OccursAt(line, m.text, i))
    ensures m.Expression? ==> matched == regex(m.source, line)
  {
    match m
    case Literal(text) => Text.Contains(line, text)
    case Expression(source) => regex(source, line)
  }

  /** In fixed-string mode a line matches exactly when it contains the pattern, whatever -i says. */
  lemma FixedMatchesSubstring(pattern: string, ignoreCase: bool, regex: RegexEngine, line: string)
    ensures MatchString(GetRegexp(true, pattern, ignoreCase), regex, line)
            <==> exists i :: Text.OccursAt(line, pattern, i)
    ensures MatchString(GetRegexp(true, pattern, ignoreCase), regex, line)
            == MatchString(GetRegexp(true, pattern, !ignoreCase), regex, line)
  {
  }

  /** Without -F the pattern reaches the engine unchanged, or behind a (?i) flag that covers all of it. */
  lemma ExpressionKeepsPattern(pattern: string, ignoreCase: bool)
    ensures GetRegexp(false, pattern, ignoreCase).Expression?
    ensures var source := GetRegexp(false, pattern, ignoreCase).source;
            && source[|source| - |pattern|..] == pattern
            && (ignoreCase <==> |source| == |pattern| + |CaseInsensitive|)
            && (ignoreCase ==> source[..|CaseInsensitive|] == "(?i)")
            && (!ignoreCase ==> source == pattern)
  {
  }

  /** With -F, "a.b" is the three characters a, dot, b: it does not match "axb". */
  lemma FixedDotIsLiteral(regex: RegexEngine)
    ensures !MatchString(GetRegexp(true, "a.b", false), regex, "axb")
    ensures MatchString(GetRegexp(true, "a.b", false), regex, "xa.b")
  {
    assert Text.OccursAt("xa.b", "a.b", 1) by {
      assert "xa.b"[1..4] == "a.b";
    }
    forall i
      ensures !Text.OccursAt("axb", "a.b", i)
    {
      if 0 <= i && i + 3 <= 3 {
        assert "axb"[i..i + 3] == "axb";
      }
    }
  }

  /** The line test of processLines: keep the line exactly when its match result differs from -v. */
  function Selects(matched: bool, invert: bool): (keep: bool)
    ensures keep <==> matched != invert
  {
    (invert && !matched) || (!invert && matched)
  }

  /** The after/before counts the engine receives. */
  datatype Context = Context(after: int, before: int)

  /** main's -C handling: a non-zero -C replaces both -A and -B. */
  function EffectiveContext(after: int, before: int, context: int): (c: Context)
    ensures context != 0 ==> c.after == context && c.before == context
    ensures context == 0 ==> c.after == after && c.before == before
  {
    if context != 0 then Context(context, context) else Context(after, before)
  }

  /** A half-open range [start, end) of line indices; empty when end <= start. */
  datatype Span = Span(start: int, end: int)

  predicate InSpan(w: Span, i: int) {
    w.start <= i < w.end
  }

  function Size(w: Span): nat {
    if w.start < w.end then w.end - w.start else 0
  }

  /** Line i lies inside the input and at most `before` lines before or `after` lines after line index. */
  predicate InReach(index: int, after: int, before: int, n: nat, i: int) {
    0 <= i < n && index - before <= i <= index + after
  }

  /**
   * The bounds prepareLine computes: start clamped at 0, end clamped at the
   * number of lines. The window holds exactly the lines within reach, so it
   * never leaves the input, whatever the sign of after and before.
   */
  function Window(index: int, after: int, before: int, n: nat): (w: Span)
    ensures 0 <= w.start && w.end <= n
    ensures forall i :: InSpan(w, i) <==> InReach(index, after, before, n, i)
  {
    var start := if index - before < 0 then 0 else index - before;
    var end := if index + after + 1 > n then n else index + after + 1;
    Span(start, end)
  }

  /** With non-negative counts the window of a line of the input contains that line. */
  lemma WindowHoldsMatch(index: int, after: int, before: int, n: nat)
    requires 0 <= index < n && 0 <= after && 0 <= before
    ensures var w := Window(index, after, before, n); 0 <= w.start <= index < w.end <= n
  {
    assert InReach(index, after, before, n, index);
  }

  /** Negative counts only shrink the window: it stays inside the window of the counts clamped at zero. */
  lemma NegativeCountsShrink(index: int, after: int, before: int, n: nat)
    ensures var w := Window(index, after, before, n);
            var v := Window(index, if after < 0 then 0 else after, if before < 0 then 0 else before, n);
            && (forall i :: InSpan(w, i) ==> InSpan(v, i))
            && Size(w) <= Size(v)
    ensures after < 0 ==> !InSpan(Window(index, after, before, n), index)
  {
    var w := Window(index, after, before, n);
    var v := Window(index, if after < 0 then 0 else after, if before < 0 then 0 else before, n);
    if w.start < w.end {
      assert InSpan(w, w.start) && InSpan(w, w.end - 1);
      assert InSpan(v, w.start) && InSpan(v, w.end - 1);
    }
  }

  const Green: string := "\U{1B}[32m"
  const Reset: string := "\U{1B}[0m"

  /**
   * One output entry. Plain mode emits the line text as it is; numbered mode
   * emits the number in green, a colon, the colour reset, the text and a
   * newline.
   */
  function FormatLine(text: string, number: int, numbered: bool): (entry: string)
    ensures !numbered ==> entry == text
    ensures numbered ==> |Green| + |text| < |entry| && entry[..|Green|] == Green && entry[|entry| - 1] == '\n'
    ensures numbered ==> entry[|entry| - 1 - |text|..|entry| - 1] == text
  {
    if numbered then Green + IntToString(number) + ":" + Reset + text + "\n" else text
  }

  /** Reads a numbered entry back into its number and its text. */
  function ParseNumbered(entry: string): Option<(int, string)> {
    if |entry| < |Green| + 1 || entry[..|Green|] != Green || entry[|entry| - 1] != '\n' then None
    else
      var body := entry[|Green|..|entry| - 1];
      var colon := Text.Index(body, ":");
      if colon < 0 then None
      else
        var tail := body[colon + 1..];
        match Atoi(body[..colon])
        case None => None
        case Some(number) =>
          if |tail| < |Reset| || tail[..|Reset|] != Reset then None
          else Some((number, tail[|Reset|..]))
  }

  /** A numbered entry determines its number and its text: the format is unambiguous. */
  lemma ParseFormatLine(text: string, number: int)
    requires MinInt64 <= number <= MaxInt64
    ensures ParseNumbered(FormatLine(text, number, true)) == Some((number, text))
  {
    var digits := IntToString(number);
    var entry := FormatLine(text, number, true);
    var rest := Reset + text;
    assert entry == Green + (digits + [':'] + rest) + "\n";
    var body := entry[|Green|..|entry| - 1];
    assert body == digits + [':'] + rest;
    Text.ContainsChar(digits, ':');
    Text.FirstSeparator(digits, ':', rest);
    assert body[..|digits|] == digits;
    assert body[|digits| + 1..] == rest;
    AtoiIntToString(number);
    assert rest[..|Reset|] == Reset;
    assert rest[|Reset|..] == text;
  }

  /**
   * The entries prepareLine emits for the line at index: every line of its
   * window, in ascending order, each labelled with index + 1, the number of
   * the matching line and not its own.
   */
  function Block(lines: seq<string>, index: int, after: int, before: int, numbered: bool): (r: seq<string>)
    ensures |r| == Size(Window(index, after, before, |lines|))
    ensures forall k :: 0 <= k < |r| ==>
              r[k] == FormatLine(lines[Window(index, after, before, |lines|).start + k], index + 1, numbered)
  {
    var w := Window(index, after, before, |lines|);
    assert 0 < Size(w) ==> w.start + Size(w) == w.end <= |lines|;
    seq(Size(w), k requires 0 <= k < Size(w) => FormatLine(lines[w.start + k], index + 1, numbered))
  }

  /** prepareLine: the loop over the clamped window of the line at index. */
  method PrepareLine(lines: seq<string>, index: int, after: int, before: int, numbered: bool)
    returns (result: seq<string>)
    ensures result == Block(lines, index, after, before, numbered)
  {
    var start := index - before;
    if start < 0 {
      start := 0;
    }
    var end := index + after + 1;
    if end > |lines| {
      end := |lines|;
    }
    ghost var w := Window(index, after, before, |lines|);
    assert w == Span(start, end);
    result := [];
    var i := start;
    while i < end
      invariant start <= i && (i <= end || i == start)
      invariant |result| == i - start
      invariant forall k :: 0 <= k < |result| ==> result[k] == FormatLine(lines[start + k], index + 1, numbered)
    {
      result := result + [FormatLine(lines[i], index + 1, numbered)];
      i := i + 1;
    }
    ghost var block := Block(lines, index, after, before, numbered);
    assert |result| == |block|;
    assert forall k :: 0 <= k < |block| ==> block[k] == FormatLine(lines[start + k], index + 1, numbered);
    assert result == block;
  }

  /** Without -n a block is the slice of the input its window covers. */
  lemma PlainBlockIsSlice(lines: seq<string>, index: int, after: int, before: int)
    ensures var w := Window(index, after, before, |lines|);
            Block(lines, index, after, before, false) == if w.start < w.end then lines[w.start..w.end] else []
  {
    var w := Window(index, after, before, |lines|);
    var block := Block(lines, index, after, before, false);
    assert forall k :: 0 <= k < |block| ==> block[k] == lines[w.start + k];
  }

  /**
   * With -n every entry of a block reads back as the MATCHING line's number
   * index + 1 and the text of the window line it renders, context lines
   * included.
   */
  lemma NumberedBlockCarriesMatchNumber(lines: seq<string>, index: int, after: int, before: int, k: int)
    requires MinInt64 <= index + 1 <= MaxInt64
    requires 0 <= k < Size(Window(index, after, before, |lines|))
    ensures ParseNumbered(Block(lines, index, after, before, true)[k])
            == Some((index + 1, lines[Window(index, after, before, |lines|).start + k]))
  {
    var w := Window(index, after, before, |lines|);
    assert Block(lines, index, after, before, true)[k] == FormatLine(lines[w.start + k], index + 1, true);
    ParseFormatLine(lines[w.start + k], index + 1);
  }

  /** Positions of the selected lines, in ascending order. */
  function SelectedIndices(lines: seq<string>, isMatch: string -> bool, invert: bool): (r: seq<nat>)
    ensures |r| <= |lines|
    ensures forall k :: 0 <= k < |r| ==> r[k] < |lines| && Selects(isMatch(lines[r[k]]), invert)
    ensures forall k, l :: 0 <= k < l < |r| ==> r[k] < r[l]
    ensures forall i :: 0 <= i < |lines| && Selects(isMatch(lines[i]), invert) ==> i in r
    decreases |lines|
  {
    if |lines| == 0 then []
    else
      var last := |lines| - 1;
      var earlier := SelectedIndices(lines[..last], isMatch, invert);
      earlier + if Selects(isMatch(lines[last]), invert) then [last] else []
  }

  /** The matchingLines slice of processLines: the selected lines, in input order. */
  function MatchingLines(lines: seq<string>, isMatch: string -> bool, invert: bool): (r: seq<string>)
    ensures |r| == |SelectedIndices(lines, isMatch, invert)|
    ensures forall k :: 0 <= k < |r| ==> r[k] == lines[SelectedIndices(lines, isMatch, invert)[k]]
    decreases |lines|
  {
    if |lines| == 0 then []
    else
      var last := |lines| - 1;
      var earlier := MatchingLines(lines[..last], isMatch, invert);
      earlier + if Selects(isMatch(lines[last]), invert) then [lines[last]] else []
  }

  /** The summed sizes of the windows of the given match positions. */
  function WindowsSize(matches: seq<nat>, after: int, before: int, n: nat): nat
    decreases |matches|
  {
    if |matches| == 0 then 0
    else
      var last := |matches| - 1;
      WindowsSize(matches[..last], after, before, n) + Size(Window(matches[last], after, before, n))
  }

  /** The blocks of the given match positions, one after another, none merged with another. */
  function Windows(lines: seq<string>, matches: seq<nat>, after: int, before: int, numbered: bool): (r: seq<string>)
    ensures |r| == WindowsSize(matches, after, before, |lines|)
    decreases |matches|
  {
    if |matches| == 0 then []
    else
      var last := |matches| - 1;
      Windows(lines, matches[..last], after, before, numbered)
      + Block(lines, matches[last], after, before, numbered)
  }

  /** What processLines returns: the count alone, or the blocks of all selected lines. */
  function Search(lines: seq<string>, isMatch: string -> bool, after: int, before: int,
                  count: bool, invert: bool, numbered: bool): (out: seq<string>)
    ensures count ==> out == [IntToString(|SelectedIndices(lines, isMatch, invert)|)]
    ensures !count && (forall i :: 0 <= i < |lines| ==> !Selects(isMatch(lines[i]), invert)) ==> out == []
  {
    if count then [IntToString(|MatchingLines(lines, isMatch, invert)|)]
    else Windows(lines, SelectedIndices(lines, isMatch, invert), after, before, numbered)
  }

  lemma MatchingLinesStep(lines: seq<string>, isMatch: string -> bool, invert: bool, i: nat)
    requires i < |lines|
    ensures MatchingLines(lines[..i + 1], isMatch, invert)
            == MatchingLines(lines[..i], isMatch, invert) + if Selects(isMatch(lines[i]), invert) then [lines[i]] else []
    ensures SelectedIndices(lines[..i + 1], isMatch, invert)
            == SelectedIndices(lines[..i], isMatch, invert) + if Selects(isMatch(lines[i]), invert) then [i] else []
  {
    assert lines[..i + 1][..i] == lines[..i];
  }

  lemma WindowsStep(lines: seq<string>, matches: seq<nat>, index: nat, after: int, before: int, numbered: bool)
    ensures Windows(lines, matches + [index], after, before, numbered)
            == Windows(lines, matches, after, before, numbered) + Block(lines, index, after, before, numbered)
  {
    assert (matches + [index])[..|matches|] == matches;
  }

  /** The first loop of processLines: the selected lines, in input order. */
  method CollectMatching(rawLines: seq<string>, isMatch: string -> bool, invert: bool)
    returns (matchingLines: seq<string>)
    ensures matchingLines == MatchingLines(rawLines, isMatch, invert)
  {
    matchingLines := [];
    var i := 0;
    while i < |rawLines|
      invariant i <= |rawLines|
      invariant matchingLines == MatchingLines(rawLines[..i], isMatch, invert)
    {
      var matched := isMatch(rawLines[i]);
      MatchingLinesStep(rawLines, isMatch, invert, i);
      if Selects(matched, invert) {
        matchingLines := matchingLines + [rawLines[i]];
      }
      i := i + 1;
    }
    assert rawLines[..i] == rawLines;
  }

  /** The second loop of processLines: the block of every selected line, appended in input order. */
  method EmitWindows(rawLines: seq<string>, isMatch: string -> bool, after: int, before: int,
                     invert: bool, numbered: bool)
    returns (result: seq<string>)
    ensures result == Windows(rawLines, SelectedIndices(rawLines, isMatch, invert), after, before, numbered)
  {
    result := [];
    var i := 0;
    while i < |rawLines|
      invariant i <= |rawLines|
      invariant result == Windows(rawLines, SelectedIndices(rawLines[..i], isMatch, invert), after, before, numbered)
    {
      var matched := isMatch(rawLines[i]);
      MatchingLinesStep(rawLines, isMatch, invert, i);
      if Selects(matched, invert) {
        var lines := PrepareLine(rawLines, i, after, before, numbered);
        WindowsStep(rawLines, SelectedIndices(rawLines[..i], isMatch, invert), i, after, before, numbered);
        result := result + lines;
      } else {
        ghost var selected := SelectedIndices(rawLines[..i], isMatch, invert);
        assert selected + [] == selected;
      }
      i := i + 1;
    }
    assert rawLines[..i] == rawLines;
  }

  /** processLines: count mode returns the number of selected lines, otherwise their blocks. */
  method ProcessLines(rawLines: seq<string>, isMatch: string -> bool, after: int, before: int,
                      count: bool, invert: bool, numbered: bool)
    returns (result: seq<string>)
    ensures result == Search(rawLines, isMatch, after, before, count, invert, numbered)
  {
    var matchingLines := CollectMatching(rawLines, isMatch, invert);
    if count {
      return [IntToString(|matchingLines|)];
    }
    result := EmitWindows(rawLines, isMatch, after, before, invert, numbered);
  }

  /** The positions of the selected lines, as a set. */
  function SelectedSet(lines: seq<string>, isMatch: string -> bool, invert: bool): set<int> {
    set i | 0 <= i < |lines| && Selects(isMatch(lines[i]), invert)
  }

  lemma SelectedSetStep(lines: seq<string>, isMatch: string -> bool, invert: bool)
    requires 0 < |lines|
    ensures var last := |lines| - 1;
            SelectedSet(lines, isMatch, invert)
            == SelectedSet(lines[..last], isMatch, invert) + if Selects(isMatch(lines[last]), invert) then {last} else {}
  {
    var last := |lines| - 1;
    var prefix := lines[..last];
    var earlier := SelectedSet(prefix, isMatch, invert);
    var now := if Selects(isMatch(lines[last]), invert) then {last} else {};
    var all := SelectedSet(lines, isMatch, invert);
    forall i | i in all
      ensures i in earlier + now
    {
      if i < last {
        assert lines[i] == prefix[i];
      }
    }
    forall i | i in earlier + now
      ensures i in all
    {
      if i < last {
        assert lines[i] == prefix[i];
      }
    }
  }

  /** The selected positions are listed once each: as many as there are selected lines. */
  lemma {:induction false} SelectedIndicesCount(lines: seq<string>, isMatch: string -> bool, invert: bool)
    ensures |SelectedIndices(lines, isMatch, invert)| == |SelectedSet(lines, isMatch, invert)|
    decreases |lines|
  {
    if |lines| > 0 {
      var last := |lines| - 1;
      SelectedIndicesCount(lines[..last], isMatch, invert);
      SelectedSetStep(lines, isMatch, invert);
      assert last !in SelectedSet(lines[..last], isMatch, invert);
    }
  }

  /**
   * Count mode returns one entry, the decimal count of the selected lines,
   * whatever the context counts and -n say.
   */
  lemma CountModeReportsSelected(lines: seq<string>, isMatch: string -> bool, invert: bool,
                                 after: int, before: int, numbered: bool)
    requires |lines| <= MaxInt64
    ensures var out := Search(lines, isMatch, after, before, true, invert, numbered);
            |out| == 1 && Atoi(out[0]) == Some(|SelectedSet(lines, isMatch, invert)|)
    ensures Search(lines, isMatch, after, before, true, invert, numbered)
            == Search(lines, isMatch, 0, 0, true, invert, false)
  {
    SelectedIndicesCount(lines, isMatch, invert);
    AtoiIntToString(|SelectedSet(lines, isMatch, invert)|);
  }

  /**
   * main's pipeline under -F -c: the matcher getRegexp builds reaches
   * processLines, and the count reported is the number of lines holding
   * the pattern as a substring, whatever -i says.
   */
  lemma FixedCountsContainingLines(lines: seq<string>, pattern: string, ignoreCase: bool, regex: RegexEngine,
                                   after: int, before: int, numbered: bool)
    requires |lines| <= MaxInt64
    ensures var isMatch := l => MatchString(GetRegexp(true, pattern, ignoreCase), regex, l);
            var out := Search(lines, isMatch, after, before, true, false, numbered);
            |out| == 1 && Atoi(out[0]) == Some(|set i | 0 <= i < |lines| && Text.Contains(lines[i], pattern)|)
  {
    var isMatch := l => MatchString(GetRegexp(true, pattern, ignoreCase), regex, l);
    CountModeReportsSelected(lines, isMatch, false, after, before, numbered);
    assert SelectedSet(lines, isMatch, false) == set i | 0 <= i < |lines| && Text.Contains(lines[i], pattern);
  }

  /** No input: count mode reports "0" and normal mode emits nothing. */
  lemma EmptyInput(isMatch: string -> bool, after: int, before: int, invert: bool, numbered: bool)
    ensures Search([], isMatch, after, before, true, invert, numbered) == ["0"]
    ensures Search([], isMatch, after, before, false, invert, numbered) == []
  {
  }

  /** A non-zero -C decides both counts; -A and -B then have no effect on the output. */
  lemma ContextOverrides(lines: seq<string>, isMatch: string -> bool, after: int, before: int, context: int,
                         count: bool, invert: bool, numbered: bool)
    ensures var c := EffectiveContext(after, before, context);
            context != 0 ==>
              Search(lines, isMatch, c.after, c.before, count, invert, numbered)
              == Search(lines, isMatch, context, context, count, invert, numbered)
    ensures var c := EffectiveContext(after, before, context);
            context == 0 ==> c.after == after && c.before == before
  {
  }

  /** With zero context, each block is the selected line alone. */
  lemma {:induction false} WindowsWithoutContext(lines: seq<string>, matches: seq<nat>)
    requires forall k :: 0 <= k < |matches| ==> matches[k] < |lines|
    ensures var out := Windows(lines, matches, 0, 0, false);
            |out| == |matches| && forall k :: 0 <= k < |out| ==> out[k] == lines[matches[k]]
    decreases |matches|
  {
    if |matches| > 0 {
      var last := |matches| - 1;
      WindowsWithoutContext(lines, matches[..last]);
      assert InReach(matches[last], 0, 0, |lines|, matches[last]);
      assert Block(lines, matches[last], 0, 0, false) == [lines[matches[last]]];
    }
  }

  /**
   * Without context and without -n the two loops of processLines agree:
   * normal mode emits exactly the lines count mode counts, in input order.
   */
  lemma PlainSearchIsFilter(lines: seq<string>, isMatch: string -> bool, invert: bool)
    ensures Search(lines, isMatch, 0, 0, false, invert, false) == MatchingLines(lines, isMatch, invert)
  {
    WindowsWithoutContext(lines, SelectedIndices(lines, isMatch, invert));
  }

  lemma MulStep(n: nat, c: int)
    ensures (n + 1) * c == n * c + c
  {
  }

  /**
   * Overlapping windows are not merged: with non-negative counts the output
   * holds at least one entry per selected line and at most one full window
   * (after + before + 1 entries) per selected line.
   */
  lemma {:induction false} WindowsLength(lines: seq<string>, matches: seq<nat>, after: int, before: int, numbered: bool)
    requires 0 <= after && 0 <= before
    requires forall k :: 0 <= k < |matches| ==> matches[k] < |lines|
    ensures |matches| <= |Windows(lines, matches, after, before, numbered)| <= |matches| * (after + before + 1)
    decreases |matches|
  {
    if |matches| > 0 {
      var last := |matches| - 1;
      var c := after + before + 1;
      var earlier := Windows(lines, matches[..last], after, before, numbered);
      var block := Block(lines, matches[last], after, before, numbered);
      WindowsLength(lines, matches[..last], after, before, numbered);
      assert last <= |earlier| <= last * c;
      WindowHoldsMatch(matches[last], after, before, |lines|);
      assert 1 <= |block| <= c;
      assert |Windows(lines, matches, after, before, numbered)| == |earlier| + |block|;
      MulStep(last, c);
    }
  }

  /**
   * Every entry of plain output is a line of the input lying within reach of
   * some selected line.
   */
  lemma {:induction false} PlainOutputComesFromWindows(lines: seq<string>, matches: seq<nat>,
                                                       after: int, before: int, k: int)
    requires 0 <= k < |Windows(lines, matches, after, before, false)|
    ensures exists m, j :: m in matches && InReach(m, after, before, |lines|, j)
                           && Windows(lines, matches, after, before, false)[k] == lines[j]
    decreases |matches|
  {
    var last := |matches| - 1;
    var earlier := Windows(lines, matches[..last], after, before, false);
    var m := matches[last];
    if k < |earlier| {
      PlainOutputComesFromWindows(lines, matches[..last], after, before, k);
      var m', j :| m' in matches[..last] && InReach(m', after, before, |lines|, j) && earlier[k] == lines[j];
      assert m' in matches;
    } else {
      var w := Window(m, after, before, |lines|);
      var j := w.start + (k - |earlier|);
      assert InSpan(w, j);
      assert Windows(lines, matches, after, before, false)[k] == lines[j];
    }
  }

  lemma SelectBothLines(isMatch: string -> bool)
    requires isMatch("a")
    ensures SelectedIndices(["a", "a"], isMatch, false) == [0, 1]
  {
    assert ["a", "a"][..1] == ["a"];
    assert ["a"][..0] == [];
    assert SelectedIndices(["a"], isMatch, false) == [0];
  }

  lemma WindowsOfBothLines()
    ensures Windows(["a", "a"], [0, 1], 1, 0, false) == ["a", "a", "a"]
  {
    var lines := ["a", "a"];
    assert Windows(lines, [0], 1, 0, false) == ["a", "a"] by {
      assert [0][..0] == [];
      assert Block(lines, 0, 1, 0, false) == ["a", "a"];
    }
    assert [0, 1][..1] == [0];
    assert Block(lines, 1, 1, 0, false) == ["a"];
  }

  /** Two matches one line apart with -A 1: the shared line is emitted twice. */
  lemma OverlappingWindowsRepeatLines(isMatch: string -> bool)
    requires isMatch("a")
    ensures Search(["a", "a"], isMatch, 1, 0, false, false, false) == ["a", "a", "a"]
  {
    SelectBothLines(isMatch);
    WindowsOfBothLines();
  }

  /** The selected positions of a three-line input, position by position. */
  lemma SelectedOfThree(lines: seq<string>, isMatch: string -> bool, invert: bool)
    requires |lines| == 3
    ensures SelectedIndices(lines, isMatch, invert)
            == (if Selects(isMatch(lines[0]), invert) then [0] else [])
               + (if Selects(isMatch(lines[1]), invert) then [1] else [])
               + (if Selects(isMatch(lines[2]), invert) then [2] else [])
  {
    var t0 := if Selects(isMatch(lines[0]), invert) then [0] else [];
    var t1 := if Selects(isMatch(lines[1]), invert) then [1] else [];
    var t2 := if Selects(isMatch(lines[2]), invert) then [2] else [];
    assert lines[..2][..1] == lines[..1] && lines[..1][..0] == [];
    assert SelectedIndices(lines[..1], isMatch, invert) == t0;
    assert SelectedIndices(lines[..2], isMatch, invert) == t0 + t1;
    assert SelectedIndices(lines, isMatch, invert) == SelectedIndices(lines[..2], isMatch, invert) + t2;
  }

  /** Exactly one of three lines selected. */
  lemma SelectOneOfThree(lines: seq<string>, isMatch: string -> bool, invert: bool, i: nat)
    requires |lines| == 3 && i < 3
    requires forall k :: 0 <= k < 3 ==> (Selects(isMatch(lines[k]), invert) <==> k == i)
    ensures SelectedIndices(lines, isMatch, invert) == [i]
  {
    SelectedOfThree(lines, isMatch, invert);
    assert Selects(isMatch(lines[0]), invert) <==> i == 0;
    assert Selects(isMatch(lines[1]), invert) <==> i == 1;
    assert Selects(isMatch(lines[2]), invert) <==> i == 2;
    if i == 0 {
      assert [0] + [] + [] == [0];
    } else if i == 1 {
      assert [] + [1] + [] == [1];
    } else {
      assert [] + [] + [2] == [2];
    }
  }

  /** The last two of three lines selected. */
  lemma SelectLastTwoOfThree(lines: seq<string>, isMatch: string -> bool, invert: bool)
    requires |lines| == 3
    requires !Selects(isMatch(lines[0]), invert)
    requires Selects(isMatch(lines[1]), invert) && Selects(isMatch(lines[2]), invert)
    ensures SelectedIndices(lines, isMatch, invert) == [1, 2]
  {
    var r := SelectedIndices(lines, isMatch, invert);
    assert 1 in r && 2 in r;
    assert forall k :: 0 <= k < |r| ==> r[k] != 0;
    assert |r| == 2 by {
      SelectedOfThree(lines, isMatch, invert);
    }
  }

  lemma TrailingWindow()
    ensures Windows(["line1", "line2", "line3"], [0], 1, 0, false) == ["line1", "line2"]
  {
    var lines := ["line1", "line2", "line3"];
    WindowsStep(lines, [], 0, 1, 0, false);
    assert [] + [0] == [0];
    PlainBlockIsSlice(lines, 0, 1, 0);
    assert lines[0..2] == ["line1", "line2"];
  }

  /** -A 1 on a match in the first of three lines: the match and the line after it. */
  lemma TrailingContextScenario(isMatch: string -> bool)
    requires isMatch("line1") && !isMatch("line2") && !isMatch("line3")
    ensures Search(["line1", "line2", "line3"], isMatch, 1, 0, false, false, false) == ["line1", "line2"]
  {
    SelectOneOfThree(["line1", "line2", "line3"], isMatch, false, 0);
    TrailingWindow();
  }

  lemma LeadingWindow()
    ensures Windows(["line1", "line2", "line3"], [2], 0, 1, false) == ["line2", "line3"]
  {
    var lines := ["line1", "line2", "line3"];
    WindowsStep(lines, [], 2, 0, 1, false);
    assert [] + [2] == [2];
    PlainBlockIsSlice(lines, 2, 0, 1);
    assert lines[1..3] == ["line2", "line3"];
  }

  /** -B 1 on a match in the last of three lines: the line before it and the match. */
  lemma LeadingContextScenario(isMatch: string -> bool)
    requires !isMatch("line1") && !isMatch("line2") && isMatch("line3")
    ensures Search(["line1", "line2", "line3"], isMatch, 0, 1, false, false, false) == ["line2", "line3"]
  {
    SelectOneOfThree(["line1", "line2", "line3"], isMatch, false, 2);
    LeadingWindow();
  }

  /** With the last two of three lines selected, the selected lines are those two. */
  lemma MatchingLastTwo(lines: seq<string>, isMatch: string -> bool, invert: bool)
    requires |lines| == 3
    requires SelectedIndices(lines, isMatch, invert) == [1, 2]
    ensures MatchingLines(lines, isMatch, invert) == [lines[1], lines[2]]
  {
  }

  /** -v selects the two lines that do not match; with -c it reports "2". */
  lemma InvertScenario(isMatch: string -> bool)
    requires isMatch("line1") && !isMatch("Line2") && !isMatch("LINE3")
    ensures Search(["line1", "Line2", "LINE3"], isMatch, 0, 0, false, true, false) == ["Line2", "LINE3"]
    ensures Search(["line1", "Line2", "LINE3"], isMatch, 0, 0, true, true, false) == ["2"]
  {
    var lines := ["line1", "Line2", "LINE3"];
    SelectLastTwoOfThree(lines, isMatch, true);
    MatchingLastTwo(lines, isMatch, true);
    PlainSearchIsFilter(lines, isMatch, true);
    assert IntToString(2) == "2";
  }

  /** A zero-context block of a line of the input is that line's entry alone. */
  lemma SingleLineBlock(lines: seq<string>, index: nat, numbered: bool)
    requires index < |lines|
    ensures Block(lines, index, 0, 0, numbered) == [FormatLine(lines[index], index + 1, numbered)]
  {
    assert InReach(index, 0, 0, |lines|, index);
  }

  lemma NumberedEntries()
    ensures FormatLine("line2", 2, true) == "\U{1B}[32m2:\U{1B}[0mline2\n"
    ensures FormatLine("line3", 3, true) == "\U{1B}[32m3:\U{1B}[0mline3\n"
  {
    assert IntToString(2) == "2" && IntToString(3) == "3";
  }

  lemma SelectLinesTwoAndThree(isMatch: string -> bool)
    requires !isMatch("line1") && isMatch("line2") && isMatch("line3")
    ensures SelectedIndices(["line1", "line2", "line3"], isMatch, false) == [1, 2]
  {
    SelectLastTwoOfThree(["line1", "line2", "line3"], isMatch, false);
  }

  lemma NumberedWindowsOfTwoAndThree()
    ensures Windows(["line1", "line2", "line3"], [1, 2], 0, 0, true)
            == ["\U{1B}[32m2:\U{1B}[0mline2\n", "\U{1B}[32m3:\U{1B}[0mline3\n"]
  {
    var lines := ["line1", "line2", "line3"];
    WindowsStep(lines, [1], 2, 0, 0, true);
    WindowsStep(lines, [], 1, 0, 0, true);
    assert [] + [1] == [1] && [1] + [2] == [1, 2];
    SingleLineBlock(lines, 1, true);
    SingleLineBlock(lines, 2, true);
    NumberedEntries();
  }

  /** -n on matches in lines 2 and 3: each entry carries its number in green. */
  lemma NumberedScenario(isMatch: string -> bool)
    requires !isMatch("line1") && isMatch("line2") && isMatch("line3")
    ensures Search(["line1", "line2", "line3"], isMatch, 0, 0, false, false, true)
            == ["\U{1B}[32m2:\U{1B}[0mline2\n", "\U{1B}[32m3:\U{1B}[0mline3\n"]
  {
    SelectLinesTwoAndThree(isMatch);
    NumberedWindowsOfTwoAndThree();
  }
}
