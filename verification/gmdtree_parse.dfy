/**
  The line loop of `ParseMarkdown` (gmdtree/gmdtree.go) as a pure fold over
  the lines of a document. The scanner state is the tree built so far, the
  path of the node Go's `currentNode` points to, and the code-block flag.
*/
module GmdParse {
  import opened Text
  import opened GmdPatterns
  import opened GmdTree

  /** What the scanner makes of one line, tried in the source's order:
      fence, inside a fence, heading, (ordered) list item, inline code,
      anything else. */
  datatype LineKind =
    | Fence
    | Code
    | Title(level: nat, title: string)
    | ListItem
    | InlineCode(code: string)
    | Plain

  function Classify(line: string, codeBlockActive: bool): (k: LineKind)
    ensures k.Fence? <==> IsCodeFence(line)
    ensures k.Title? ==> 1 <= k.level <= 6
  {
    if IsCodeFence(line) then Fence
    else if codeBlockActive then Code
    else
      match MatchTitle(line)
      case Some(h) => Title(h.level, h.title)
      case None =>
        if IsListItem(line) || IsOrderedListItem(line) then ListItem
        else
          match FirstInlineCode(line)
          case Some(c) => InlineCode(c)
          case None => Plain
  }

  /** The content line kept for a line that is neither a fence nor a
      heading: the line itself, or "Code: " and the first span's text. */
  function Stored(kind: LineKind, line: string): string {
    match kind
    case InlineCode(c) => "Code: " + c
    case _ => line
  }

  /** Which parent a new heading is attached to: the walk as written
      (`FindParent`), or the corrected nearest-smaller-level rule. */
  datatype Nesting = FirstSmaller | NearestSmaller

  function Resolve(nesting: Nesting, t: MarkdownNode, level: int): (p: seq<nat>)
    ensures p <= RightPath(t)
    ensures |p| > 0 ==> Spine(t)[|p|].level < level
  {
    match nesting
    case FirstSmaller => FindParent(t, level)
    case NearestSmaller => FindParentNearest(t, level)
  }

  datatype ParseState = ParseState(root: MarkdownNode, current: seq<nat>, codeBlockActive: bool)

  /** Invariant of the scan: the root is the synthetic level-0 node, levels
      rise from parent to child, and the current node is the end of the
      right spine. */
  ghost predicate Wf(s: ParseState) {
    s.root.level == 0 && s.root.title == "Root" && Ordered(s.root) &&
    s.current == RightPath(s.root)
  }

  /** State before the first line. */
  const Start: ParseState := ParseState(Root, [], false)

  /** One iteration of the line loop. */
  function Step(nesting: Nesting, s: ParseState, line: string): (r: ParseState)
    requires Wf(s)
    ensures Wf(r)
  {
    match Classify(line, s.codeBlockActive)
    case Fence =>
      s.(codeBlockActive := !s.codeBlockActive)
    case Title(level, title) =>
      var p := Resolve(nesting, s.root, level);
      var leaf := Leaf(level, title);
      PrefixValid(s.root, RightPath(s.root), p);
      SpineNode(s.root, |p|);
      assert RightPath(s.root)[..|p|] == p;
      InsertOnSpineEndsSpine(s.root, p, leaf);
      InsertKeepsOrdered(s.root, p, leaf);
      ParseState(InsertChild(s.root, p, leaf), p + [|NodeAt(s.root, p).children|], s.codeBlockActive)
    case kind =>
      AppendKeepsOrdered(s.root, s.current, Stored(kind, line));
      s.(root := AppendContent(s.root, s.current, Stored(kind, line)))
  }

  function ParseFrom(nesting: Nesting, s: ParseState, lines: seq<string>): (r: ParseState)
    requires Wf(s)
    ensures Wf(r)
    decreases |lines|
  {
    if |lines| == 0 then s else ParseFrom(nesting, Step(nesting, s, lines[0]), lines[1..])
  }

  /** `ParseMarkdown` of gmdtree/gmdtree.go on the lines of a document. */
  function ParseMarkdown(lines: seq<string>): (t: MarkdownNode)
    ensures t.level == 0 && t.title == "Root" && Ordered(t)
  {
    ParseFrom(FirstSmaller, Start, lines).root
  }

  /** The same scan with headings nested under the nearest open heading of
      smaller level. */
  function ParseMarkdownNested(lines: seq<string>): (t: MarkdownNode)
    ensures t.level == 0 && t.title == "Root" && Ordered(t)
  {
    ParseFrom(NearestSmaller, Start, lines).root
  }

  // ---------------------------------------------------------------------
  // Reference reading of a document, without any tree

  /** The code-block flag after `line`. */
  function Toggle(line: string, active: bool): bool {
    if IsCodeFence(line) then !active else active
  }

  /** The code-block flag after scanning `lines` from `active`. */
  function FlagAfter(lines: seq<string>, active: bool): bool
    decreases |lines|
  {
    if |lines| == 0 then active else FlagAfter(lines[1..], Toggle(lines[0], active))
  }

  /** Number of fence lines. */
  function FenceCount(lines: seq<string>): nat {
    if |lines| == 0 then 0
    else (if IsCodeFence(lines[0]) then 1 else 0) + FenceCount(lines[1..])
  }

  /** What one classified line adds to the headings of the document. */
  function HeadingHere(kind: LineKind): seq<Head> {
    if kind.Title? then [Head(kind.level, kind.title)] else []
  }

  /** What one classified line adds to the stored content of the document. */
  function ContentHere(kind: LineKind, line: string): seq<string> {
    if kind.Fence? || kind.Title? then [] else [Stored(kind, line)]
  }

  /** (level, title) of every heading line, in order, when scanning starts
      with the code-block flag `active`. */
  function HeadingsOf(lines: seq<string>, active: bool): seq<Head>
    decreases |lines|
  {
    if |lines| == 0 then []
    else HeadingHere(Classify(lines[0], active)) + HeadingsOf(lines[1..], Toggle(lines[0], active))
  }

  /** Every stored content line, in order, when scanning starts with the
      code-block flag `active`. */
  function ContentOf(lines: seq<string>, active: bool): seq<string>
    decreases |lines|
  {
    if |lines| == 0 then []
    else ContentHere(Classify(lines[0], active), lines[0]) + ContentOf(lines[1..], Toggle(lines[0], active))
  }

  // ---------------------------------------------------------------------
  // Properties of the scan

  /** One step adds the line's heading, if it is one, at the end of
      document order. */
  lemma StepHeads(nesting: Nesting, s: ParseState, line: string)
    requires Wf(s)
    ensures Heads(Step(nesting, s, line).root) == Heads(s.root) + HeadingHere(Classify(line, s.codeBlockActive))
  {
    match Classify(line, s.codeBlockActive) {
      case Fence =>
      case Title(level, title) =>
        var p := Resolve(nesting, s.root, level);
        InsertOnSpineAppendsHead(s.root, p, Leaf(level, title));
      case kind =>
        AppendKeepsHeads(s.root, s.current, Stored(kind, line));
    }
  }

  /** One step adds the line's stored form, if it has one, at the end of
      document order. */
  lemma StepLines(nesting: Nesting, s: ParseState, line: string)
    requires Wf(s)
    ensures Lines(Step(nesting, s, line).root) == Lines(s.root) + ContentHere(Classify(line, s.codeBlockActive), line)
  {
    match Classify(line, s.codeBlockActive) {
      case Fence =>
      case Title(level, title) =>
        var p := Resolve(nesting, s.root, level);
        InsertOnSpineAppendsHead(s.root, p, Leaf(level, title));
      case kind =>
        AppendAtEndAppendsLine(s.root, Stored(kind, line));
    }
  }

  /** One step flips the code-block flag exactly on a fence line. */
  lemma StepFlag(nesting: Nesting, s: ParseState, line: string)
    requires Wf(s)
    ensures Step(nesting, s, line).codeBlockActive == Toggle(line, s.codeBlockActive)
  {
  }

  /** A fence line only flips the code-block flag: the tree and the
      current node stay as they were. */
  lemma StepFence(nesting: Nesting, s: ParseState, line: string)
    requires Wf(s) && IsCodeFence(line)
    ensures Step(nesting, s, line) == s.(codeBlockActive := !s.codeBlockActive)
  {
  }

  /** The headings of the tree, in pre-order, are the heading lines
      outside fences, in document order. */
  lemma {:induction false} ParseFromHeads(nesting: Nesting, s: ParseState, lines: seq<string>)
    requires Wf(s)
    ensures Heads(ParseFrom(nesting, s, lines).root) == Heads(s.root) + HeadingsOf(lines, s.codeBlockActive)
    decreases |lines|
  {
    if |lines| > 0 {
      var k := Classify(lines[0], s.codeBlockActive);
      var s' := Step(nesting, s, lines[0]);
      StepHeads(nesting, s, lines[0]);
      StepFlag(nesting, s, lines[0]);
      ParseFromHeads(nesting, s', lines[1..]);
      assert Heads(s'.root) == Heads(s.root) + HeadingHere(k);
    }
  }

  /** The content of the tree, in pre-order, is the stored form of every
      line that is neither a fence nor a heading, in document order. */
  lemma {:induction false} ParseFromLines(nesting: Nesting, s: ParseState, lines: seq<string>)
    requires Wf(s)
    ensures Lines(ParseFrom(nesting, s, lines).root) == Lines(s.root) + ContentOf(lines, s.codeBlockActive)
    decreases |lines|
  {
    if |lines| > 0 {
      var k := Classify(lines[0], s.codeBlockActive);
      var s' := Step(nesting, s, lines[0]);
      StepLines(nesting, s, lines[0]);
      StepFlag(nesting, s, lines[0]);
      ParseFromLines(nesting, s', lines[1..]);
      assert Lines(s'.root) == Lines(s.root) + ContentHere(k, lines[0]);
    }
  }

  /** The code-block flag ends where the reference reading leaves it. */
  lemma {:induction false} ParseFromFlag(nesting: Nesting, s: ParseState, lines: seq<string>)
    requires Wf(s)
    ensures ParseFrom(nesting, s, lines).codeBlockActive == FlagAfter(lines, s.codeBlockActive)
    decreases |lines|
  {
    if |lines| > 0 {
      var s' := Step(nesting, s, lines[0]);
      StepFlag(nesting, s, lines[0]);
      ParseFromFlag(nesting, s', lines[1..]);
    }
  }

  /** Node count: one node per heading line outside fences, in document
      order, for either nesting rule; all other non-fence lines are stored,
      in order. */
  lemma ParseMarkdownAccounts(lines: seq<string>)
    ensures Heads(ParseMarkdown(lines)) == HeadingsOf(lines, false)
    ensures Heads(ParseMarkdownNested(lines)) == HeadingsOf(lines, false)
    ensures Lines(ParseMarkdown(lines)) == ContentOf(lines, false)
    ensures Lines(ParseMarkdownNested(lines)) == ContentOf(lines, false)
  {
    assert HeadsOf([]) == [] && LinesOf([]) == [];
    assert Heads(ParseMarkdown(lines)) == HeadingsOf(lines, false) by {
      assert ParseFrom(FirstSmaller, Start, lines).root == ParseMarkdown(lines);
      ParseFromHeads(FirstSmaller, Start, lines);
    }
    assert Heads(ParseMarkdownNested(lines)) == HeadingsOf(lines, false) by {
      assert ParseFrom(NearestSmaller, Start, lines).root == ParseMarkdownNested(lines);
      ParseFromHeads(NearestSmaller, Start, lines);
    }
    assert Lines(ParseMarkdown(lines)) == ContentOf(lines, false) by {
      assert ParseFrom(FirstSmaller, Start, lines).root == ParseMarkdown(lines);
      ParseFromLines(FirstSmaller, Start, lines);
    }
    assert Lines(ParseMarkdownNested(lines)) == ContentOf(lines, false) by {
      assert ParseFrom(NearestSmaller, Start, lines).root == ParseMarkdownNested(lines);
      ParseFromLines(NearestSmaller, Start, lines);
    }
  }

  /** A heading line creates exactly one node, a leaf at the end of the
      right spine, and makes it current. */
  lemma StepHeading(nesting: Nesting, s: ParseState, line: string)
    requires Wf(s) && Classify(line, s.codeBlockActive).Title?
    ensures var k := Classify(line, s.codeBlockActive);
      var r := Step(nesting, s, line);
      ValidPath(r.root, r.current) &&
      NodeAt(r.root, r.current) == Leaf(k.level, k.title) &&
      Heads(r.root) == Heads(s.root) + [Head(k.level, k.title)] &&
      Lines(r.root) == Lines(s.root) && r.codeBlockActive == s.codeBlockActive
    ensures var k := Classify(line, s.codeBlockActive);
      var p := Resolve(nesting, s.root, k.level);
      var r := Step(nesting, s, line);
      ValidPath(s.root, p) && ValidPath(r.root, p) &&
      r.current == p + [|NodeAt(s.root, p).children|] &&
      NodeAt(r.root, p).children == NodeAt(s.root, p).children + [Leaf(k.level, k.title)]
    ensures var k := Classify(line, s.codeBlockActive);
      var p := Resolve(nesting, s.root, k.level);
      var r := Step(nesting, s, line);
      forall q :: ValidPath(s.root, q) ==>
        ValidPath(r.root, q) &&
        NodeAt(r.root, q).level == NodeAt(s.root, q).level &&
        NodeAt(r.root, q).title == NodeAt(s.root, q).title &&
        NodeAt(r.root, q).content == NodeAt(s.root, q).content &&
        |NodeAt(r.root, q).children| == |NodeAt(s.root, q).children| + (if q == p then 1 else 0) &&
        (!(q <= p) ==> NodeAt(r.root, q) == NodeAt(s.root, q))
  {
    var k := Classify(line, s.codeBlockActive);
    var p := Resolve(nesting, s.root, k.level);
    var leaf := Leaf(k.level, k.title);
    PrefixValid(s.root, RightPath(s.root), p);
    InsertOnSpineAppendsHead(s.root, p, leaf);
    StepTitleUnfolds(nesting, s, line);
    forall q | ValidPath(s.root, q)
      ensures var r := InsertChild(s.root, p, leaf);
        ValidPath(r, q) &&
        NodeAt(r, q).level == NodeAt(s.root, q).level && NodeAt(r, q).title == NodeAt(s.root, q).title &&
        NodeAt(r, q).content == NodeAt(s.root, q).content &&
        |NodeAt(r, q).children| == |NodeAt(s.root, q).children| + (if q == p then 1 else 0) &&
        (!(q <= p) ==> NodeAt(r, q) == NodeAt(s.root, q))
    {
      InsertChildKeeps(s.root, p, leaf, q);
    }
  }

  /** Any line that is not a fence or a heading is appended to the current
      node and nowhere else; list items are stored verbatim. */
  lemma StepContent(nesting: Nesting, s: ParseState, line: string)
    requires Wf(s)
    requires var k := Classify(line, s.codeBlockActive); !k.Fence? && !k.Title?
    ensures var k := Classify(line, s.codeBlockActive);
      var r := Step(nesting, s, line);
      r.current == s.current && ValidPath(r.root, r.current) &&
      NodeAt(r.root, r.current).content == NodeAt(s.root, s.current).content + [Stored(k, line)] &&
      Heads(r.root) == Heads(s.root) &&
      Lines(r.root) == Lines(s.root) + [Stored(k, line)] &&
      (k.ListItem? || k.Code? || k.Plain? ==> Stored(k, line) == line) &&
      (k.InlineCode? ==> Stored(k, line) == "Code: " + k.code)
    ensures var k := Classify(line, s.codeBlockActive);
      var r := Step(nesting, s, line);
      forall q :: ValidPath(s.root, q) ==>
        ValidPath(r.root, q) &&
        NodeAt(r.root, q).level == NodeAt(s.root, q).level &&
        NodeAt(r.root, q).title == NodeAt(s.root, q).title &&
        NodeAt(r.root, q).content == NodeAt(s.root, q).content + (if q == s.current then [Stored(k, line)] else []) &&
        |NodeAt(r.root, q).children| == |NodeAt(s.root, q).children| &&
        (!(q <= s.current) ==> NodeAt(r.root, q) == NodeAt(s.root, q))
  {
    var k := Classify(line, s.codeBlockActive);
    var stored := Stored(k, line);
    AppendKeepsHeads(s.root, s.current, stored);
    StepLines(nesting, s, line);
    assert Step(nesting, s, line).root == AppendContent(s.root, s.current, stored);
    forall q | ValidPath(s.root, q)
      ensures var r := AppendContent(s.root, s.current, stored);
        ValidPath(r, q) &&
        NodeAt(r, q).level == NodeAt(s.root, q).level && NodeAt(r, q).title == NodeAt(s.root, q).title &&
        NodeAt(r, q).content == NodeAt(s.root, q).content + (if q == s.current then [stored] else []) &&
        |NodeAt(r, q).children| == |NodeAt(s.root, q).children| &&
        (!(q <= s.current) ==> NodeAt(r, q) == NodeAt(s.root, q))
    {
      AppendContentKeeps(s.root, s.current, stored, q);
    }
  }

  /** Inside a fence a non-fence line is appended to the current node
      and nothing else changes. */
  lemma StepInFence(nesting: Nesting, s: ParseState, line: string)
    requires Wf(s) && s.codeBlockActive && !IsCodeFence(line)
    ensures Step(nesting, s, line) == s.(root := AppendContent(s.root, s.current, line))
  {
  }

  lemma {:induction false} InsideFenceAppends(nesting: Nesting, s: ParseState, lines: seq<string>)
    requires Wf(s) && s.codeBlockActive
    requires forall i :: 0 <= i < |lines| ==> !IsCodeFence(lines[i])
    ensures ParseFrom(nesting, s, lines) == s.(root := AppendAll(s.root, s.current, lines))
    decreases |lines|
  {
    if |lines| > 0 {
      StepInFence(nesting, s, lines[0]);
      InsideFenceAppends(nesting, Step(nesting, s, lines[0]), lines[1..]);
    }
  }

  /** Inside a fence every line up to the next fence goes verbatim to the
      current node: no heading or list is recognised there. */
  lemma InsideFenceVerbatim(nesting: Nesting, s: ParseState, lines: seq<string>)
    requires Wf(s) && s.codeBlockActive
    requires forall i :: 0 <= i < |lines| ==> !IsCodeFence(lines[i])
    ensures var r := ParseFrom(nesting, s, lines);
      r.current == s.current && ValidPath(r.root, r.current) &&
      NodeAt(r.root, r.current).content == NodeAt(s.root, s.current).content + lines &&
      Heads(r.root) == Heads(s.root) && r.codeBlockActive
  {
    InsideFenceAppends(nesting, s, lines);
    ParseFromHeads(nesting, s, lines);
    FencedRest(lines);
  }

  /** Splitting the document splits the reference reading: the second
      part is read from the flag the first part leaves. */
  lemma {:induction false} HeadingsAppend(a: seq<string>, b: seq<string>, active: bool)
    ensures HeadingsOf(a + b, active) == HeadingsOf(a, active) + HeadingsOf(b, FlagAfter(a, active))
    decreases |a|
  {
    if |a| > 0 {
      assert (a + b)[0] == a[0];
      assert (a + b)[1..] == a[1..] + b;
      HeadingsAppend(a[1..], b, Toggle(a[0], active));
    } else {
      assert a + b == b;
    }
  }

  lemma {:induction false} ContentAppend(a: seq<string>, b: seq<string>, active: bool)
    ensures ContentOf(a + b, active) == ContentOf(a, active) + ContentOf(b, FlagAfter(a, active))
    decreases |a|
  {
    if |a| > 0 {
      assert (a + b)[0] == a[0];
      assert (a + b)[1..] == a[1..] + b;
      ContentAppend(a[1..], b, Toggle(a[0], active));
    } else {
      assert a + b == b;
    }
  }

  /** The flag flips once per fence line. */
  lemma {:induction false} FlagAfterParity(lines: seq<string>, active: bool)
    ensures FlagAfter(lines, active) == (active != (FenceCount(lines) % 2 == 1))
    decreases |lines|
  {
    if |lines| > 0 {
      FlagAfterParity(lines[1..], Toggle(lines[0], active));
    }
  }

  /** An unclosed fence hides the rest of the document: after an odd
      number of fence lines, no later heading is recognised and every
      later line is stored verbatim. */
  lemma UnclosedFence(pre: seq<string>, post: seq<string>)
    requires FenceCount(pre) % 2 == 1
    requires forall i :: 0 <= i < |post| ==> !IsCodeFence(post[i])
    ensures Heads(ParseMarkdown(pre + post)) == HeadingsOf(pre, false)
    ensures Lines(ParseMarkdown(pre + post)) == ContentOf(pre, false) + post
  {
    ParseMarkdownAccounts(pre + post);
    HeadingsAppend(pre, post, false);
    ContentAppend(pre, post, false);
    FlagAfterParity(pre, false);
    FencedRest(post);
  }

  lemma {:induction false} FencedRest(lines: seq<string>)
    requires forall i :: 0 <= i < |lines| ==> !IsCodeFence(lines[i])
    ensures HeadingsOf(lines, true) == [] && ContentOf(lines, true) == lines
    decreases |lines|
  {
    if |lines| > 0 {
      FencedRest(lines[1..]);
      assert [lines[0]] + lines[1..] == lines;
    }
  }

  lemma {:induction false} NoHeadsNoChildren(cs: seq<MarkdownNode>)
    requires HeadsOf(cs) == []
    ensures cs == []
  {
  }

  /** A document without heading lines (outside fences) yields the bare
      root holding every stored line. */
  lemma NoHeadingsRootOnly(lines: seq<string>)
    requires HeadingsOf(lines, false) == []
    ensures ParseMarkdown(lines) == MarkdownNode(0, "Root", ContentOf(lines, false), [])
  {
    var t := ParseMarkdown(lines);
    ParseMarkdownAccounts(lines);
    NoHeadsNoChildren(t.children);
    assert LinesOf(t.children) == [];
  }

  // ---------------------------------------------------------------------
  // The first-match order, stated on the patterns

  /** `titleRegex` can match the line. */
  ghost predicate HeadingLine(line: string) {
    exists k, j :: TitleSplit(line, k, j)
  }

  /** `listRegex` or `orderedListRegex` can match the line. */
  ghost predicate ListLine(line: string) {
    (exists w :: ListSplit(line, w)) || (exists w, d, j :: OrderedSplit(line, w, d, j))
  }

  /** `inlineCodeRegex` can match the line. */
  ghost predicate HasCodeSpan(line: string) {
    exists a, b :: CodeSpanAt(line, a, b)
  }

  /** Each kind holds exactly when its pattern matches and no pattern tried
      before it does; a heading carries the split Go reports and inline code
      the inside of the leftmost span. */
  lemma ClassifySpec(line: string, active: bool)
    ensures var k := Classify(line, active);
      var open := !IsCodeFence(line) && !active;
      (k.Code? <==> !IsCodeFence(line) && active) &&
      (k.Title? <==> open && HeadingLine(line)) &&
      (k.ListItem? <==> open && !HeadingLine(line) && ListLine(line)) &&
      (k.InlineCode? <==> open && !HeadingLine(line) && !ListLine(line) && HasCodeSpan(line)) &&
      (k.Plain? <==> open && !HeadingLine(line) && !ListLine(line) && !HasCodeSpan(line))
    ensures var k := Classify(line, active);
      k.Title? ==> exists j :: ChosenTitleSplit(line, k.level, j) && k.title == line[k.level + j..]
    ensures var k := Classify(line, active);
      k.InlineCode? ==>
        exists a, b :: CodeSpanAt(line, a, b) && k.code == line[a + 1..b] &&
          forall a', b' :: CodeSpanAt(line, a', b') ==> a <= a'
  {
    ClassifyHeading(line, active);
    if !IsCodeFence(line) && !active && !HeadingLine(line) {
      ClassifyBelowHeading(line);
    }
  }

  /** The first three checks: fence, inside a fence, heading. */
  lemma ClassifyHeading(line: string, active: bool)
    ensures var k := Classify(line, active);
      var open := !IsCodeFence(line) && !active;
      (k.Code? <==> !IsCodeFence(line) && active) &&
      (k.Title? <==> open && HeadingLine(line)) &&
      (k.Title? ==> exists j :: ChosenTitleSplit(line, k.level, j) && k.title == line[k.level + j..])
  {
    MatchTitleSpec(line);
  }

  /** The last three checks, on a line that none of the first three took. */
  lemma ClassifyBelowHeading(line: string)
    requires !IsCodeFence(line) && !HeadingLine(line)
    ensures var k := Classify(line, false);
      (k.ListItem? <==> ListLine(line)) &&
      (k.InlineCode? <==> !ListLine(line) && HasCodeSpan(line)) &&
      (k.Plain? <==> !ListLine(line) && !HasCodeSpan(line)) &&
      (k.InlineCode? ==>
        exists a, b :: CodeSpanAt(line, a, b) && k.code == line[a + 1..b] &&
          forall a', b' :: CodeSpanAt(line, a', b') ==> a <= a')
  {
    MatchTitleSpec(line);
    ListPatterns(line);
    FirstInlineCodeSpec(line);
  }

  lemma ListPatterns(line: string)
    ensures IsListItem(line) || IsOrderedListItem(line) <==> ListLine(line)
  {
    IsListItemSpec(line);
    IsOrderedListItemSpec(line);
  }

  /** A list line opens with whitespace, a bullet or a digit, so it is
      neither a fence nor a heading. */
  lemma ListLineNotHeading(line: string)
    requires ListLine(line)
    ensures !IsCodeFence(line) && !HeadingLine(line)
  {
    ListLineOpens(line);
    HeadingLineOpens(line);
    if |line| >= 3 {
      assert line[..3][0] == line[0];
    }
  }

  lemma HeadingLineOpens(line: string)
    ensures HeadingLine(line) ==> |line| > 0 && line[0] == '#'
  {
    if HeadingLine(line) {
      var k, j :| TitleSplit(line, k, j);
      assert line[..k][0] == line[0];
    }
  }

  lemma ListLineOpens(line: string)
    requires ListLine(line)
    ensures |line| > 0 && (IsSpace(line[0]) || line[0] in "-*+" || IsDigit(line[0]))
  {
    if w :| ListSplit(line, w) {
      if w > 0 { assert line[..w][0] == line[0]; }
    } else {
      var w, d, j :| OrderedSplit(line, w, d, j);
      if w > 0 { assert line[..w][0] == line[0]; } else { assert line[w..w + d][0] == line[0]; }
    }
  }

  /** A list line outside a fence is stored as it is, even when it holds a
      backtick span: the list patterns are tried before the inline-code one. */
  lemma ListLineKeptVerbatim(nesting: Nesting, s: ParseState, line: string)
    requires Wf(s) && !s.codeBlockActive && ListLine(line)
    ensures Classify(line, false) == ListItem
    ensures var r := Step(nesting, s, line);
      r.current == s.current && ValidPath(r.root, r.current) &&
      NodeAt(r.root, r.current).content == NodeAt(s.root, s.current).content + [line] &&
      Lines(r.root) == Lines(s.root) + [line] && Heads(r.root) == Heads(s.root)
  {
    ListLineNotHeading(line);
    ClassifySpec(line, false);
    StepContent(nesting, s, line);
  }

  // ---------------------------------------------------------------------
  // What the walk as written does to the shape of the tree

  /** With the walk as written a heading hangs under the root or under one
      of its children, so no node is deeper than a grandchild of the root. */
  lemma StepShallow(s: ParseState, line: string)
    requires Wf(s) && Shallow(s.root)
    ensures Shallow(Step(FirstSmaller, s, line).root)
  {
    match Classify(line, s.codeBlockActive) {
      case Fence =>
      case Title(level, title) =>
        var p := FindParent(s.root, level);
        FindParentShallow(s.root, level);
        PrefixValid(s.root, RightPath(s.root), p);
        InsertKeepsShallow(s.root, p, Leaf(level, title));
      case kind =>
        AppendKeepsShallow(s.root, s.current, Stored(kind, line));
    }
  }

  lemma {:induction false} ParseFromShallow(s: ParseState, lines: seq<string>)
    requires Wf(s) && Shallow(s.root)
    ensures Shallow(ParseFrom(FirstSmaller, s, lines).root)
    decreases |lines|
  {
    if |lines| > 0 {
      StepShallow(s, lines[0]);
      ParseFromShallow(Step(FirstSmaller, s, lines[0]), lines[1..]);
    }
  }

  /** The tree `ParseMarkdown` builds is at most two levels below the root,
      however deep the document's headings go. */
  lemma ParseMarkdownHeight(lines: seq<string>)
    ensures Height(ParseMarkdown(lines)) <= 2
  {
    ParseFromShallow(Start, lines);
    ShallowHeight(ParseMarkdown(lines));
  }

  /** A line of `n` hashes, a space and a one-character title is a
      level-`n` heading outside a fence. */
  lemma ShortHeading(line: string, n: nat)
    requires 1 <= n <= 6 && |line| == n + 2 && All(line[..n], IsHash)
    requires line[n] == ' ' && line[n + 1] != '#' && !IsSpace(line[n + 1])
    ensures Classify(line, false) == Title(n, line[n + 1..])
  {
    var r := line[n..];
    assert !IsCodeFence(line) by {
      assert line[0] == line[..n][0];
      assert line[..3][0] == '#';
    }
    assert MatchTitle(line) == Some(Heading(n, line[n + 1..])) by {
      assert Span(line, IsHash) == n by { SpanExact(line, IsHash, n); }
      assert SpaceThenRest(r) == Some(line[n + 1..]) by {
        assert r == [' ', line[n + 1]];
        assert Span(r, IsSpace) == 1 by { SpanExact(r, IsSpace, 1); }
        assert r[1..] == line[n + 1..];
      }
    }
  }

  /** The three heading lines of the example below. */
  lemma ExampleHeadings(a: string, b: string, c: string)
    requires a == "# A" && b == "## B" && c == "### C"
    ensures Classify(a, false) == Title(1, "A")
    ensures Classify(b, false) == Title(2, "B")
    ensures Classify(c, false) == Title(3, "C")
  {
    assert a[..1] == "#" && a[2..] == "A";
    ShortHeading(a, 1);
    assert b[..2] == "##" && b[3..] == "B";
    ShortHeading(b, 2);
    assert c[..3] == "###" && c[4..] == "C";
    ShortHeading(c, 3);
  }

  /** A heading step inserts a leaf under the resolved parent and moves
      the current node to it. */
  lemma StepTitleUnfolds(nesting: Nesting, s: ParseState, line: string)
    requires Wf(s) && Classify(line, s.codeBlockActive).Title?
    ensures var k := Classify(line, s.codeBlockActive);
      var p := Resolve(nesting, s.root, k.level);
      ValidPath(s.root, p) &&
      Step(nesting, s, line) ==
        ParseState(InsertChild(s.root, p, Leaf(k.level, k.title)), p + [|NodeAt(s.root, p).children|], s.codeBlockActive)
  {
    var k := Classify(line, s.codeBlockActive);
    PrefixValid(s.root, RightPath(s.root), Resolve(nesting, s.root, k.level));
  }

  lemma ExampleStep1(nesting: Nesting)
    ensures Step(nesting, Start, "# A") == ParseState(TreeA, [0], false)
  {
    ExampleHeadings("# A", "## B", "### C");
    StepTitleUnfolds(nesting, Start, "# A");
  }

  lemma TreeAFacts(nesting: Nesting, t: MarkdownNode)
    requires t == TreeA
    ensures Ordered(t) && RightPath(t) == [0] && Resolve(nesting, t, 2) == [0]
    ensures ValidPath(t, [0]) && NodeAt(t, [0]) == Leaf(1, "A")
    ensures InsertChild(t, [0], Leaf(2, "B")) == TreeAB
  {
    assert Ordered(t.children[0]);
    assert Last(t.children) == Leaf(1, "A");
    assert [0][1..] == [];
    assert t.children[0].children + [Leaf(2, "B")] == [Leaf(2, "B")];
  }

  lemma TreeABFacts(t: MarkdownNode)
    requires t == TreeAB
    ensures Ordered(t) && RightPath(t) == [0, 0]
    ensures FindParent(t, 3) == [0] && FindParentNearest(t, 3) == [0, 0]
    ensures ValidPath(t, [0]) && NodeAt(t, [0]) == t.children[0]
    ensures ValidPath(t, [0, 0]) && NodeAt(t, [0, 0]) == Leaf(2, "B")
  {
    var a := t.children[0];
    assert Ordered(a.children[0]) && Ordered(a);
    assert Last(t.children) == a && Last(a.children) == Leaf(2, "B");
    assert FindParentNearest(a.children[0], 3) == [];
    assert [0, 0][1..] == [0] && [0][1..] == [];
  }

  lemma InsertUnderA(t: MarkdownNode)
    requires t == TreeAB
    ensures ValidPath(t, [0]) && InsertChild(t, [0], Leaf(3, "C")) == TreeABC
  {
    assert [0][1..] == [];
    assert t.children[0].children + [Leaf(3, "C")] == [Leaf(2, "B"), Leaf(3, "C")];
  }

  lemma InsertUnderB(t: MarkdownNode)
    requires t == TreeAB
    ensures ValidPath(t, [0, 0]) && InsertChild(t, [0, 0], Leaf(3, "C")) == TreeNested
  {
    var a := t.children[0];
    assert [0, 0][1..] == [0] && [0][1..] == [];
    assert a.children[0].children + [Leaf(3, "C")] == [Leaf(3, "C")];
    assert InsertChild(a, [0], Leaf(3, "C")) == TreeNested.children[0];
  }

  lemma ExampleStep2(nesting: Nesting, s: ParseState)
    requires s == ParseState(TreeA, [0], false)
    ensures Wf(s) && Step(nesting, s, "## B") == ParseState(TreeAB, [0, 0], false)
  {
    TreeAFacts(nesting, s.root);
    ExampleHeadings("# A", "## B", "### C");
    StepTitleUnfolds(nesting, s, "## B");
  }

  lemma ExampleStep3(s: ParseState)
    requires s == ParseState(TreeAB, [0, 0], false)
    ensures Wf(s) && Step(FirstSmaller, s, "### C") == ParseState(TreeABC, [0, 1], false)
  {
    TreeABFacts(s.root);
    InsertUnderA(s.root);
    ExampleHeadings("# A", "## B", "### C");
    StepTitleUnfolds(FirstSmaller, s, "### C");
  }

  lemma ExampleStep3Nested(s: ParseState)
    requires s == ParseState(TreeAB, [0, 0], false)
    ensures Wf(s) && Step(NearestSmaller, s, "### C") == ParseState(TreeNested, [0, 0, 0], false)
  {
    TreeABFacts(s.root);
    InsertUnderB(s.root);
    ExampleHeadings("# A", "## B", "### C");
    StepTitleUnfolds(NearestSmaller, s, "### C");
  }

  lemma ParseThree(nesting: Nesting, a: string, b: string, c: string)
    ensures var s1 := Step(nesting, Start, a);
      var s2 := Step(nesting, s1, b);
      ParseFrom(nesting, Start, [a, b, c]) == Step(nesting, s2, c)
  {
    var lines := [a, b, c];
    assert lines[1..] == [b, c] && lines[1..][1..] == [c] && lines[1..][1..][1..] == [];
    var s1 := Step(nesting, Start, a);
    var s2 := Step(nesting, s1, b);
    assert ParseFrom(nesting, s2, [c]) == ParseFrom(nesting, Step(nesting, s2, c), []);
  }

  /** "# A", "## B", "### C": the walk as written attaches C beside B,
      under A, although B is the nearest open heading of smaller level. */
  lemma ParseMarkdownSkipsNearer(lines: seq<string>)
    requires lines == ["# A", "## B", "### C"]
    ensures ParseMarkdown(lines) == TreeABC
  {
    ParseThree(FirstSmaller, "# A", "## B", "### C");
    ExampleStep1(FirstSmaller);
    ExampleStep2(FirstSmaller, ParseState(TreeA, [0], false));
    ExampleStep3(ParseState(TreeAB, [0, 0], false));
  }

  /** The corrected rule nests the same document as Root > A > B > C. */
  lemma ParseMarkdownNestedNests(lines: seq<string>)
    requires lines == ["# A", "## B", "### C"]
    ensures ParseMarkdownNested(lines) == TreeNested
  {
    ParseThree(NearestSmaller, "# A", "## B", "### C");
    ExampleStep1(NearestSmaller);
    ExampleStep2(NearestSmaller, ParseState(TreeA, [0], false));
    ExampleStep3Nested(ParseState(TreeAB, [0, 0], false));
  }
}
