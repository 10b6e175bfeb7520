/**
  `PrintMarkdownTree` of gmdtree/gmdtree.go as a pure function from a tree
  to the lines it prints (each printed with a trailing newline).
*/
module GmdRender {
  import opened Text
  import opened GmdTree
  import GmdParse

  /** The line printed for a node: `<indent>- [<title>] (Level <level>)`. */
  function HeaderLine(indent: string, t: MarkdownNode): string {
    indent + "- [" + t.title + "] (Level " + IntToDecimal(t.level) + ")"
  }

  /** The line printed for one content line: `<indent>  * <line>`. */
  function ContentLine(indent: string, line: string): string {
    indent + "  * " + line
  }

  function ContentLines(indent: string, content: seq<string>): (r: seq<string>)
    ensures |r| == |content|
    ensures forall i :: 0 <= i < |r| ==> r[i] == ContentLine(indent, content[i])
  {
    if |content| == 0 then []
    else ContentLines(indent, content[..|content| - 1]) + [ContentLine(indent, Last(content))]
  }

  /** The header, the content lines, then every child one level deeper. */
  function Render(t: MarkdownNode, indent: string): seq<string> {
    [HeaderLine(indent, t)] + ContentLines(indent, t.content) + RenderAll(t.children, indent + "  ")
  }

  function RenderAll(cs: seq<MarkdownNode>, indent: string): seq<string> {
    if |cs| == 0 then [] else RenderAll(cs[..|cs| - 1], indent) + Render(Last(cs), indent)
  }

  /** One printed line per node and one per stored content line. */
  lemma {:induction false} RenderLength(t: MarkdownNode, indent: string)
    ensures |Render(t, indent)| == 1 + |Heads(t)| + |Lines(t)|
    decreases t, 1
  {
    RenderAllLength(t.children, indent + "  ");
  }

  lemma {:induction false} RenderAllLength(cs: seq<MarkdownNode>, indent: string)
    ensures |RenderAll(cs, indent)| == |HeadsOf(cs)| + |LinesOf(cs)|
    decreases cs, 0
  {
    if |cs| > 0 {
      RenderAllLength(cs[..|cs| - 1], indent);
      RenderLength(Last(cs), indent);
    }
  }

  /** Every printed line of a subtree starts with the indentation the
      subtree was printed at, and every line after the node's own header
      and content lines (the children's) with two more spaces. */
  lemma {:induction false} RenderIndented(t: MarkdownNode, indent: string)
    ensures forall i :: 0 <= i < |Render(t, indent)| ==> StartsWith(Render(t, indent)[i], indent)
    ensures forall i :: 1 + |t.content| <= i < |Render(t, indent)| ==>
      StartsWith(Render(t, indent)[i], indent + "  ")
    decreases t, 1
  {
    var r := Render(t, indent);
    var h := [HeaderLine(indent, t)] + ContentLines(indent, t.content);
    RenderAllIndented(t.children, indent + "  ");
    assert |h| == 1 + |t.content|;
    forall i | 1 + |t.content| <= i < |r| ensures StartsWith(r[i], indent + "  ") {
      assert r[i] == RenderAll(t.children, indent + "  ")[i - |h|];
    }
    forall i | 0 <= i < |r| ensures StartsWith(r[i], indent) {
      if i < |h| {
        if i > 0 {
          assert r[i] == ContentLine(indent, t.content[i - 1]);
        }
      } else {
        var c := RenderAll(t.children, indent + "  ");
        assert r[i] == c[i - |h|];
        assert StartsWith(c[i - |h|], indent + "  ");
        assert c[i - |h|][..|indent|] == (indent + "  ")[..|indent|];
      }
    }
  }

  lemma {:induction false} RenderAllIndented(cs: seq<MarkdownNode>, indent: string)
    ensures forall i :: 0 <= i < |RenderAll(cs, indent)| ==> StartsWith(RenderAll(cs, indent)[i], indent)
    decreases cs, 0
  {
    if |cs| > 0 {
      RenderAllIndented(cs[..|cs| - 1], indent);
      RenderIndented(Last(cs), indent);
    }
  }

  // ---------------------------------------------------------------------
  // Printing in pre-order

  /** A node met in a pre-order walk, with its depth below where the walk
      started. */
  datatype Entry = Entry(depth: nat, node: MarkdownNode)

  /** `t` and every node below it, in pre-order, `t` at depth `d`. */
  function Flatten(t: MarkdownNode, d: nat): seq<Entry> {
    [Entry(d, t)] + FlattenAll(t.children, d + 1)
  }

  function FlattenAll(cs: seq<MarkdownNode>, d: nat): seq<Entry> {
    if |cs| == 0 then [] else FlattenAll(cs[..|cs| - 1], d) + Flatten(Last(cs), d)
  }

  /** The indentation `d` levels below `base`: two spaces per level. */
  function Indent(base: string, d: nat): (r: string)
    ensures |r| == |base| + 2 * d
    ensures forall i :: 0 <= i < |base| ==> r[i] == base[i]
    ensures forall i :: |base| <= i < |r| ==> r[i] == ' '
  {
    if d == 0 then base else Indent(base, d - 1) + "  "
  }

  /** The lines printed for one node: its header and its content lines. */
  function EntryLines(e: Entry, base: string): seq<string> {
    [HeaderLine(Indent(base, e.depth), e.node)] + ContentLines(Indent(base, e.depth), e.node.content)
  }

  /** `f` of each element of `xs`, one after the other. */
  function ConcatMap<A, B>(xs: seq<A>, f: A -> seq<B>): seq<B> {
    if |xs| == 0 then [] else ConcatMap(xs[..|xs| - 1], f) + f(Last(xs))
  }

  lemma {:induction false} ConcatMapAppend<A, B>(a: seq<A>, b: seq<A>, f: A -> seq<B>)
    ensures ConcatMap(a + b, f) == ConcatMap(a, f) + ConcatMap(b, f)
    decreases |b|
  {
    if |b| == 0 {
      assert a + b == a;
    } else {
      var init, x := b[..|b| - 1], Last(b);
      assert (a + b)[..|a + b| - 1] == a + init;
      ConcatMapAppend(a, init, f);
    }
  }

  lemma ConcatMapOne<A, B>(x: A, f: A -> seq<B>)
    ensures ConcatMap([x], f) == f(x)
  {
    assert [x][..0] == [];
  }

  function HeadOfEntry(e: Entry): seq<Head> {
    [Head(e.node.level, e.node.title)]
  }

  function ContentOfEntry(e: Entry): seq<string> {
    e.node.content
  }

  /** The lines printed for a list of nodes, one after the other. */
  function PrintEntries(es: seq<Entry>, base: string): seq<string> {
    ConcatMap(es, e => EntryLines(e, base))
  }

  /** Level and title of each node of a list. */
  function EntryHeads(es: seq<Entry>): seq<Head> {
    ConcatMap(es, HeadOfEntry)
  }

  /** The content lines of each node of a list, one node after the other. */
  function EntryContent(es: seq<Entry>): seq<string> {
    ConcatMap(es, ContentOfEntry)
  }

  lemma PrintEntriesAppend(a: seq<Entry>, b: seq<Entry>, base: string)
    ensures PrintEntries(a + b, base) == PrintEntries(a, base) + PrintEntries(b, base)
  {
    ConcatMapAppend(a, b, e => EntryLines(e, base));
  }

  lemma EntryHeadsAppend(a: seq<Entry>, b: seq<Entry>)
    ensures EntryHeads(a + b) == EntryHeads(a) + EntryHeads(b)
  {
    ConcatMapAppend(a, b, HeadOfEntry);
  }

  lemma EntryContentAppend(a: seq<Entry>, b: seq<Entry>)
    ensures EntryContent(a + b) == EntryContent(a) + EntryContent(b)
  {
    ConcatMapAppend(a, b, ContentOfEntry);
  }

  lemma EntriesOfOne(e: Entry, base: string)
    ensures PrintEntries([e], base) == EntryLines(e, base)
    ensures EntryHeads([e]) == [Head(e.node.level, e.node.title)]
    ensures EntryContent([e]) == e.node.content
  {
    ConcatMapOne(e, e => EntryLines(e, base));
    ConcatMapOne(e, HeadOfEntry);
    ConcatMapOne(e, ContentOfEntry);
  }

  /** The pre-order walk meets the nodes below `t` in the order of `Heads`
      and their content in the order of `Lines`, each child one level
      deeper than its parent. */
  lemma {:induction false} FlattenReadsBack(t: MarkdownNode, d: nat)
    ensures var es := Flatten(t, d);
      es[0] == Entry(d, t) &&
      EntryHeads(es) == [Head(t.level, t.title)] + Heads(t) &&
      EntryContent(es) == Lines(t) &&
      forall i :: 1 <= i < |es| ==> es[i].depth > d
    decreases t, 1
  {
    var first, rest := [Entry(d, t)], FlattenAll(t.children, d + 1);
    FlattenAllReadsBack(t.children, d + 1);
    EntriesOfOne(Entry(d, t), "");
    EntryHeadsAppend(first, rest);
    EntryContentAppend(first, rest);
    forall i | 1 <= i < |first + rest| ensures (first + rest)[i].depth > d {
      assert (first + rest)[i] == rest[i - 1];
    }
  }

  lemma {:induction false} FlattenAllReadsBack(cs: seq<MarkdownNode>, d: nat)
    ensures var es := FlattenAll(cs, d);
      EntryHeads(es) == HeadsOf(cs) &&
      EntryContent(es) == LinesOf(cs) &&
      forall i :: 0 <= i < |es| ==> es[i].depth >= d
    decreases cs, 0
  {
    if |cs| > 0 {
      var init, c := cs[..|cs| - 1], Last(cs);
      var a, b := FlattenAll(init, d), Flatten(c, d);
      FlattenAllReadsBack(init, d);
      FlattenReadsBack(c, d);
      EntryHeadsAppend(a, b);
      EntryContentAppend(a, b);
      EntriesOfOne(Entry(d, c), "");
      EntryHeadsAppend([Entry(d, c)], b[1..]);
      assert b == [Entry(d, c)] + b[1..];
      forall i | 0 <= i < |a + b| ensures (a + b)[i].depth >= d {
        if i >= |a| {
          assert (a + b)[i] == b[i - |a|];
        }
      }
    }
  }

  /** Printing a subtree at `d` levels below `base` prints, for every node
      of its pre-order walk in turn, the node's header and content lines at
      two more spaces per level below the subtree. */
  lemma {:induction false} RenderIsPreorder(t: MarkdownNode, base: string, d: nat)
    ensures Render(t, Indent(base, d)) == PrintEntries(Flatten(t, d), base)
    decreases t, 1
  {
    RenderAllIsPreorder(t.children, base, d + 1);
    EntriesOfOne(Entry(d, t), base);
    PrintEntriesAppend([Entry(d, t)], FlattenAll(t.children, d + 1), base);
  }

  lemma {:induction false} RenderAllIsPreorder(cs: seq<MarkdownNode>, base: string, d: nat)
    requires d > 0
    ensures RenderAll(cs, Indent(base, d - 1) + "  ") == PrintEntries(FlattenAll(cs, d), base)
    decreases cs, 0
  {
    if |cs| > 0 {
      RenderAllIsPreorder(cs[..|cs| - 1], base, d);
      RenderIsPreorder(Last(cs), base, d);
      PrintEntriesAppend(FlattenAll(cs[..|cs| - 1], d), Flatten(Last(cs), d), base);
    }
  }

  /** `PrintMarkdownTree(t, indent)` prints the nodes of `t` in pre-order:
      `t` first, then the nodes below it in the order of `Heads(t)`, each
      with its header and content lines indented two spaces per level
      below `t`, its content being, in all, `Lines(t)`. */
  lemma RenderPreorder(t: MarkdownNode, indent: string)
    ensures var es := Flatten(t, 0);
      es[0] == Entry(0, t) &&
      EntryHeads(es) == [Head(t.level, t.title)] + Heads(t) &&
      EntryContent(es) == Lines(t) &&
      Render(t, indent) == PrintEntries(es, indent)
  {
    FlattenReadsBack(t, 0);
    RenderIsPreorder(t, indent, 0);
  }

  /** The root's line opens the output and its content lines follow it, in
      order, before any child. */
  lemma RenderOpensWithNode(t: MarkdownNode, indent: string)
    ensures |Render(t, indent)| >= 1 + |t.content|
    ensures Render(t, indent)[0] == HeaderLine(indent, t)
    ensures forall i :: 0 <= i < |t.content| ==> Render(t, indent)[1 + i] == ContentLine(indent, t.content[i])
  {
  }

  /** The level printed in a header reads back as the node's level. */
  lemma HeaderLevelReadsBack(t: MarkdownNode, indent: string)
    requires t.level >= 0
    ensures var s := IntToDecimal(t.level);
      All(s, IsDigit) && DecimalValue(s) == t.level &&
      HeaderLine(indent, t) == indent + "- [" + t.title + "] (Level " + s + ")"
  {
    DecimalRoundTrip(t.level);
  }

  /** Printing a parsed document prints the root line, one line per heading
      line outside fences and one per stored content line. */
  lemma PrintedDocumentLength(lines: seq<string>)
    ensures |Render(GmdParse.ParseMarkdown(lines), "")| ==
      1 + |GmdParse.HeadingsOf(lines, false)| + |GmdParse.ContentOf(lines, false)|
  {
    GmdParse.ParseMarkdownAccounts(lines);
    RenderLength(GmdParse.ParseMarkdown(lines), "");
  }
}
