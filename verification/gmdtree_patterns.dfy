/**
  The five line patterns of the heading-tree builder (gmdtree/gmdtree.go),
  each written as an explicit matcher over the characters of one line,
  together with a declarative reading of the regular expression it stands
  for. Captures are the ones Go's leftmost-first (backtracking-order)
  matcher reports.
*/
module GmdPatterns {
  import opened Text

  /** What a heading line yields: the number of `#` and the captured text. */
  datatype Heading = Heading(level: nat, title: string)

  /** One way for `\s+(.+)$` to match the whole of `r`: `j` whitespace
      characters, then a non-empty rest that holds no newline. */
  ghost predicate SpaceDotSplit(r: string, j: int) {
    1 <= j < |r| && All(r[..j], IsSpace) && NoNewline(r[j..])
  }

  lemma NoNewlineSuffix(s: string, a: nat, b: nat)
    requires a <= b <= |s| && NoNewline(s[a..])
    ensures NoNewline(s[b..])
  {
    assert forall i :: 0 <= i < |s| - b ==> s[b..][i] == s[a..][i + b - a];
  }

  lemma SplitWithinSpan(r: string, j: int)
    requires SpaceDotSplit(r, j)
    ensures j <= Span(r, IsSpace)
  {
    SpanCovers(r, IsSpace, j);
  }

  /** The split a backtracking matcher settles on: the greedy `\s+` gives
      back as few characters as it can, so no later split exists. */
  ghost predicate LastSplit(r: string, j: int) {
    SpaceDotSplit(r, j) && forall j' :: SpaceDotSplit(r, j') ==> j' <= j
  }

  /** `\s+(.+)$` matched against the whole of `r`. */
  function SpaceThenRest(r: string): Option<string> {
    var w := Span(r, IsSpace);
    if w == 0 then None
    else if w < |r| then (if NoNewline(r[w..]) then Some(r[w..]) else None)
    else if w >= 2 && r[w - 1] != '\n' then Some(r[w - 1..])
    else None
  }

  /** What `SpaceThenRest` captures is the rest after the last split. */
  lemma SpaceThenRestLast(r: string)
    requires SpaceThenRest(r).Some?
    ensures |SpaceThenRest(r).value| <= |r|
    ensures SpaceDotSplit(r, |r| - |SpaceThenRest(r).value|)
    ensures LastSplit(r, |r| - |SpaceThenRest(r).value|)
    ensures SpaceThenRest(r).value == r[|r| - |SpaceThenRest(r).value|..]
  {
    var j := SpaceThenRestSplit(r);
    forall j' | SpaceDotSplit(r, j') ensures j' <= j {
      SplitWithinSpan(r, j');
    }
  }

  /** The split `SpaceThenRest` reads `r` with: the whole whitespace run,
      or all of it but its last character when nothing follows the run. */
  lemma SpaceThenRestSplit(r: string) returns (j: int)
    requires SpaceThenRest(r).Some?
    ensures var w := Span(r, IsSpace); j == if w < |r| then w else w - 1
    ensures SpaceDotSplit(r, j) && SpaceThenRest(r).value == r[j..]
  {
    var w := Span(r, IsSpace);
    j := if w < |r| then w else w - 1;
    assert SpaceThenRest(r).value == r[j..];
    assert All(r[..j], IsSpace) by {
      assert forall i :: 0 <= i < j ==> r[..j][i] == r[..w][i];
    }
  }

  /** Whenever a split exists, `SpaceThenRest` matches. */
  lemma SpaceThenRestComplete(r: string, j: int)
    requires SpaceDotSplit(r, j)
    ensures SpaceThenRest(r).Some?
  {
    var w := Span(r, IsSpace);
    SplitWithinSpan(r, j);
    if w < |r| {
      NoNewlineSuffix(r, j, w);
    } else {
      assert r[w - 1] == r[j..][w - 1 - j];
    }
  }

  /** `SpaceThenRest` matches exactly when some split exists, and captures
      the rest after the LAST split: the greedy `\s+` gives back as few
      characters as it can, so when `r` is whitespace only the capture is
      its final character. */
  lemma SpaceThenRestSpec(r: string)
    ensures SpaceThenRest(r).Some? <==> exists j :: SpaceDotSplit(r, j)
    ensures SpaceThenRest(r).Some? ==> exists j :: LastSplit(r, j) && SpaceThenRest(r).value == r[j..]
  {
    if SpaceThenRest(r).Some? {
      SpaceThenRestLast(r);
      var j := |r| - |SpaceThenRest(r).value|;
      assert LastSplit(r, j) && SpaceThenRest(r).value == r[j..];
    }
    forall j | SpaceDotSplit(r, j) ensures SpaceThenRest(r).Some? {
      SpaceThenRestComplete(r, j);
    }
  }

  /** One way for `^(#{1,6})\s+(.+)$` to match `line`: `k` hashes, then a
      split of the rest as above. */
  ghost predicate TitleSplit(line: string, k: int, j: int) {
    1 <= k <= 6 && k <= |line| && All(line[..k], IsHash) && SpaceDotSplit(line[k..], j)
  }

  /** The split Go reports: the only possible hash run, and the last
      whitespace split after it. */
  ghost predicate ChosenTitleSplit(line: string, k: int, j: int) {
    TitleSplit(line, k, j) && forall k', j' :: TitleSplit(line, k', j') ==> k' == k && j' <= j
  }

  /** The hash run of any heading split is the whole leading run of `#`. */
  lemma TitleSplitLevel(line: string, k: int, j: int)
    requires TitleSplit(line, k, j)
    ensures k == Span(line, IsHash)
  {
    assert line[k..][0] == line[k];
    SpanExact(line, IsHash, k);
  }

  lemma ChosenFromLast(line: string, k: int, j: int)
    requires k == Span(line, IsHash) && 1 <= k <= 6
    requires LastSplit(line[k..], j)
    ensures ChosenTitleSplit(line, k, j)
  {
    forall k', j' | TitleSplit(line, k', j') ensures k' == k && j' <= j {
      TitleSplitLevel(line, k', j');
    }
  }

  /** `titleRegex` of gmdtree/gmdtree.go: 1 to 6 `#`, whitespace, then at
      least one character up to the end of the line. The level is the
      number of `#`, the title the capture after the whitespace run. */
  function MatchTitle(line: string): (h: Option<Heading>)
    ensures h.Some? ==> 1 <= h.value.level <= 6
  {
    var k := Span(line, IsHash);
    if 1 <= k <= 6 && SpaceThenRest(line[k..]).Some? then
      Some(Heading(k, SpaceThenRest(line[k..]).value))
    else
      None
  }

  /** The heading's level is the leading hash run and its title is the
      rest after the last whitespace split of what follows. */
  lemma MatchTitleParts(line: string)
    requires MatchTitle(line).Some?
    ensures var h := MatchTitle(line).value;
      h.level == Span(line, IsHash) && |h.title| <= |line| - h.level &&
      LastSplit(line[h.level..], |line| - h.level - |h.title|) &&
      h.title == line[|line| - |h.title|..]
  {
    var k := Span(line, IsHash);
    var r := line[k..];
    SpaceThenRestLast(r);
    assert r[|r| - |SpaceThenRest(r).value|..] == line[|line| - |SpaceThenRest(r).value|..];
  }

  lemma MatchTitleChosen(line: string)
    requires MatchTitle(line).Some?
    ensures var h := MatchTitle(line).value;
      exists j :: ChosenTitleSplit(line, h.level, j) && h.title == line[h.level + j..]
  {
    var h := MatchTitle(line).value;
    MatchTitleParts(line);
    var j := |line| - h.level - |h.title|;
    ChosenFromLast(line, h.level, j);
    assert h.level + j == |line| - |h.title|;
  }

  lemma MatchTitleComplete(line: string, k: int, j: int)
    requires TitleSplit(line, k, j)
    ensures MatchTitle(line).Some?
  {
    TitleSplitLevel(line, k, j);
    SpaceThenRestComplete(line[k..], j);
  }

  /** A line is a heading exactly when the pattern can match it; the level
      is the only possible hash run and the title is the text after the
      last possible whitespace split, not otherwise trimmed. */
  lemma MatchTitleSpec(line: string)
    ensures MatchTitle(line).Some? <==> exists k, j :: TitleSplit(line, k, j)
    ensures MatchTitle(line).Some? ==>
      var h := MatchTitle(line).value;
      exists j :: ChosenTitleSplit(line, h.level, j) && h.title == line[h.level + j..]
  {
    if MatchTitle(line).Some? {
      MatchTitleChosen(line);
    }
    forall k, j | TitleSplit(line, k, j) ensures MatchTitle(line).Some? {
      MatchTitleComplete(line, k, j);
    }
  }

  /** One way for `^\s*[-*+] (.+)$` to match `line`: `w` whitespace
      characters, a bullet, one space, then a non-empty newline-free rest. */
  ghost predicate ListSplit(line: string, w: int) {
    0 <= w && w + 2 < |line| && All(line[..w], IsSpace) &&
    line[w] in "-*+" && line[w + 1] == ' ' && NoNewline(line[w + 2..])
  }

  /** `listRegex` of gmdtree/gmdtree.go. */
  function IsListItem(line: string): bool {
    var w := Span(line, IsSpace);
    w + 2 < |line| && line[w] in "-*+" && line[w + 1] == ' ' && NoNewline(line[w + 2..])
  }

  /** `IsListItem` holds exactly when the pattern can match the line. */
  lemma IsListItemSpec(line: string)
    ensures IsListItem(line) <==> exists w :: ListSplit(line, w)
  {
    var w := Span(line, IsSpace);
    forall w' | ListSplit(line, w') ensures w' == w {
      SpanExact(line, IsSpace, w');
    }
    if IsListItem(line) {
      assert ListSplit(line, w);
    }
  }

  /** One way for `^\s*\d+\.\s+(.+)$` to match `line`: `w` whitespace
      characters, `d` digits, a dot, then a split of the rest as above. */
  ghost predicate OrderedSplit(line: string, w: int, d: int, j: int) {
    0 <= w && 1 <= d && w + d < |line| &&
    All(line[..w], IsSpace) && All(line[w..w + d], IsDigit) && line[w + d] == '.' &&
    SpaceDotSplit(line[w + d + 1..], j)
  }

  lemma OrderedSplitRuns(line: string, w: int, d: int, j: int)
    requires OrderedSplit(line, w, d, j)
    ensures w == Span(line, IsSpace)
    ensures d == Span(line[w..], IsDigit)
  {
    assert line[w] == line[w..w + d][0];
    SpanExact(line, IsSpace, w);
    assert line[w..][..d] == line[w..w + d];
    SpanExact(line[w..], IsDigit, d);
  }

  /** `orderedListRegex` of gmdtree/gmdtree.go. */
  function IsOrderedListItem(line: string): bool {
    var w := Span(line, IsSpace);
    var d := Span(line[w..], IsDigit);
    1 <= d && w + d < |line| && line[w + d] == '.' && SpaceThenRest(line[w + d + 1..]).Some?
  }

  /** The digit run of a matching line lies right after its leading
      whitespace. */
  lemma OrderedItemDigits(line: string)
    ensures var w := Span(line, IsSpace);
      w + Span(line[w..], IsDigit) <= |line| &&
      All(line[w..w + Span(line[w..], IsDigit)], IsDigit)
  {
    var w := Span(line, IsSpace);
    var d := Span(line[w..], IsDigit);
    assert line[w..][..d] == line[w..w + d];
  }

  lemma OrderedItemSound(line: string)
    requires IsOrderedListItem(line)
    ensures exists w, d, j :: OrderedSplit(line, w, d, j)
  {
    var w, d, j := OrderedItemWitness(line);
  }

  /** The split a matching line is read with. */
  lemma OrderedItemWitness(line: string) returns (w: int, d: int, j: int)
    requires IsOrderedListItem(line)
    ensures OrderedSplit(line, w, d, j)
  {
    w := Span(line, IsSpace);
    d := Span(line[w..], IsDigit);
    assert All(line[w..w + d], IsDigit) by {
      OrderedItemDigits(line);
    }
    var tail := line[w + d + 1..];
    j := |tail| - |SpaceThenRest(tail).value|;
    assert SpaceDotSplit(tail, j) by {
      SpaceThenRestLast(tail);
    }
  }

  lemma OrderedItemComplete(line: string, w: int, d: int, j: int)
    requires OrderedSplit(line, w, d, j)
    ensures IsOrderedListItem(line)
  {
    OrderedSplitRuns(line, w, d, j);
    SpaceThenRestComplete(line[w + d + 1..], j);
  }

  /** `IsOrderedListItem` holds exactly when the pattern can match the line. */
  lemma IsOrderedListItemSpec(line: string)
    ensures IsOrderedListItem(line) <==> exists w, d, j :: OrderedSplit(line, w, d, j)
  {
    if IsOrderedListItem(line) {
      OrderedItemSound(line);
    }
    forall w, d, j | OrderedSplit(line, w, d, j) ensures IsOrderedListItem(line) {
      OrderedItemComplete(line, w, d, j);
    }
  }

  /** `codeBlockRegex` of gmdtree/gmdtree.go: three backticks at the start
      of the line, then anything up to the end that holds no newline. */
  predicate IsCodeFence(line: string) {
    StartsWith(line, "```") && NoNewline(line[3..])
  }

  /** A match of "`([^`]+)`" at `i`: a backtick, at least one non-backtick
      character (a newline included), then the closing backtick at `j`. */
  ghost predicate CodeSpanAt(line: string, i: int, j: int) {
    0 <= i && i + 1 < j < |line| && line[i] == '`' && line[j] == '`' &&
    All(line[i + 1..j], IsNotBacktick)
  }

  /** The closing backtick of a span is the first backtick after its opening. */
  lemma CodeSpanEnd(line: string, i: int, j: int)
    requires CodeSpanAt(line, i, j)
    ensures j == i + 1 + Span(line[i + 1..], IsNotBacktick)
  {
    assert line[i + 1..][..j - i - 1] == line[i + 1..j];
    SpanExact(line[i + 1..], IsNotBacktick, j - i - 1);
  }

  /** Leftmost code span starting at or after `i`, as (open, close). */
  function CodeSpanFrom(line: string, i: nat): (r: Option<(nat, nat)>)
    requires i <= |line|
    ensures r.Some? ==> i <= r.value.0 && r.value.0 + 1 < r.value.1 < |line|
    decreases |line| - i
  {
    if i == |line| then
      None
    else
      var n := Span(line[i + 1..], IsNotBacktick);
      if line[i] == '`' && n >= 1 && i + 1 + n < |line| then Some((i, i + 1 + n))
      else CodeSpanFrom(line, i + 1)
  }

  /** `CodeSpanFrom` finds a span exactly when one opens at or after `i`. */
  lemma {:induction false} CodeSpanFromFinds(line: string, i: nat)
    requires i <= |line|
    ensures CodeSpanFrom(line, i).None? <==> !exists a, b :: i <= a && CodeSpanAt(line, a, b)
    ensures CodeSpanFrom(line, i).Some? ==>
      CodeSpanAt(line, CodeSpanFrom(line, i).value.0, CodeSpanFrom(line, i).value.1)
    decreases |line| - i
  {
    if i < |line| {
      var n := Span(line[i + 1..], IsNotBacktick);
      if line[i] == '`' && n >= 1 && i + 1 + n < |line| {
        assert line[i + 1..][..n] == line[i + 1..i + 1 + n];
        assert line[i + 1 + n] == line[i + 1..][n];
        assert CodeSpanAt(line, i, i + 1 + n);
      } else {
        forall b | CodeSpanAt(line, i, b) ensures false {
          CodeSpanEnd(line, i, b);
        }
        CodeSpanFromFinds(line, i + 1);
      }
    }
  }

  /** The span `CodeSpanFrom` finds is the leftmost one at or after `i`. */
  lemma {:induction false} CodeSpanFromLeftmost(line: string, i: nat, a: int, b: int)
    requires i <= a && CodeSpanAt(line, a, b)
    ensures CodeSpanFrom(line, i).Some? && CodeSpanFrom(line, i).value.0 <= a
    decreases |line| - i
  {
    var n := Span(line[i + 1..], IsNotBacktick);
    if !(line[i] == '`' && n >= 1 && i + 1 + n < |line|) {
      if i == a {
        CodeSpanEnd(line, a, b);
      } else {
        CodeSpanFromLeftmost(line, i + 1, a, b);
      }
    }
  }

  /** `inlineCodeRegex` of gmdtree/gmdtree.go: the text inside the leftmost
      backtick span of the line, if there is one. */
  function FirstInlineCode(line: string): Option<string> {
    match CodeSpanFrom(line, 0)
    case None => None
    case Some((a, b)) => Some(line[a + 1..b])
  }

  /** The inline-code capture exists exactly when the line holds a span,
      and it is the inside of the leftmost one. */
  lemma FirstInlineCodeSpec(line: string)
    ensures FirstInlineCode(line).None? <==> !exists a, b :: CodeSpanAt(line, a, b)
    ensures FirstInlineCode(line).Some? ==>
      exists a, b :: CodeSpanAt(line, a, b) && FirstInlineCode(line).value == line[a + 1..b] &&
        forall a', b' :: CodeSpanAt(line, a', b') ==> a <= a'
  {
    CodeSpanFromFinds(line, 0);
    forall a', b' | CodeSpanAt(line, a', b') ensures CodeSpanFrom(line, 0).value.0 <= a' {
      CodeSpanFromLeftmost(line, 0, a', b');
    }
  }
}
