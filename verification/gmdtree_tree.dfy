/**
  The heading tree of gmdtree/gmdtree.go as an immutable value. Go's node
  pointers become child-index paths from the root; the "right spine" is the
  chain of last children starting at the root, and it ends at the node
  that was created most recently.
*/
module GmdTree {
  import opened Text

  /** `MarkdownNode`: a heading (or the synthetic root), the lines stored
      under it, and its sub-headings in document order. */
  datatype MarkdownNode = MarkdownNode(
    level: int,
    title: string,
    content: seq<string>,
    children: seq<MarkdownNode>)

  /** The node `ParseMarkdown` starts from. */
  const Root: MarkdownNode := MarkdownNode(0, "Root", [], [])

  /** A freshly created heading node. */
  function Leaf(level: int, title: string): MarkdownNode {
    MarkdownNode(level, title, [], [])
  }

  /** `p` is a path of child indices that leads from `t` to a node. */
  predicate ValidPath(t: MarkdownNode, p: seq<nat>)
    decreases |p|
  {
    |p| == 0 || (p[0] < |t.children| && ValidPath(t.children[p[0]], p[1..]))
  }

  function NodeAt(t: MarkdownNode, p: seq<nat>): MarkdownNode
    requires ValidPath(t, p)
    decreases |p|
  {
    if |p| == 0 then t else NodeAt(t.children[p[0]], p[1..])
  }

  /** Path to the end of the right spine: always take the last child. */
  function RightPath(t: MarkdownNode): (p: seq<nat>)
    ensures ValidPath(t, p)
    ensures NodeAt(t, p).children == []
  {
    if |t.children| == 0 then []
    else
      var p := [|t.children| - 1] + RightPath(Last(t.children));
      assert p[1..] == RightPath(Last(t.children));
      p
  }

  /** The nodes on the right spine, from `t` down to its deepest node. */
  function Spine(t: MarkdownNode): (s: seq<MarkdownNode>)
    ensures |s| == |RightPath(t)| + 1 && s[0] == t
  {
    if |t.children| == 0 then [t] else [t] + Spine(Last(t.children))
  }

  /** Every node lies strictly below its parent: child levels exceed the
      parent's level, all the way down. */
  predicate Ordered(t: MarkdownNode) {
    forall i :: 0 <= i < |t.children| ==>
      t.children[i].level > t.level && Ordered(t.children[i])
  }

  /** Number of edges on the longest downward path. */
  function Height(t: MarkdownNode): nat {
    if |t.children| == 0 then 0 else 1 + HeightOf(t.children)
  }

  function HeightOf(cs: seq<MarkdownNode>): nat {
    if |cs| == 0 then 0
    else
      var a := HeightOf(cs[..|cs| - 1]);
      var b := Height(Last(cs));
      if a < b then b else a
  }

  /** No node lies more than two edges below `t`: the children of `t`'s
      children are leaves. */
  predicate Shallow(t: MarkdownNode) {
    forall i :: 0 <= i < |t.children| ==> ChildrenAreLeaves(t.children[i])
  }

  predicate ChildrenAreLeaves(t: MarkdownNode) {
    forall j :: 0 <= j < |t.children| ==> t.children[j].children == []
  }

  lemma {:induction false} HeightOfBound(cs: seq<MarkdownNode>, h: nat)
    requires forall i :: 0 <= i < |cs| ==> Height(cs[i]) <= h
    ensures HeightOf(cs) <= h
  {
    if |cs| > 0 {
      HeightOfBound(cs[..|cs| - 1], h);
    }
  }

  /** A shallow tree has height at most two. */
  lemma ShallowHeight(t: MarkdownNode)
    requires Shallow(t)
    ensures Height(t) <= 2
  {
    forall i | 0 <= i < |t.children| ensures Height(t.children[i]) <= 1 {
      HeightOfBound(t.children[i].children, 0);
    }
    HeightOfBound(t.children, 1);
  }

  /** Appending a line changes no node's children. */
  lemma AppendKeepsShallow(t: MarkdownNode, p: seq<nat>, line: string)
    requires Shallow(t) && ValidPath(t, p)
    ensures Shallow(AppendContent(t, p, line))
  {
    if |p| > 0 {
      var c := t.children[p[0]];
      var c' := AppendContent(c, p[1..], line);
      if |p| > 1 {
        var g := c.children[p[1]];
        assert g.children == [];
        assert |p[2..]| == 0;
        assert c'.children == c.children[p[1] := g.(content := g.content + [line])];
      }
      assert ChildrenAreLeaves(c');
    }
  }

  /** A leaf attached to the root or to one of its children keeps the tree
      shallow. */
  lemma InsertKeepsShallow(t: MarkdownNode, p: seq<nat>, leaf: MarkdownNode)
    requires Shallow(t) && ValidPath(t, p) && |p| <= 1 && leaf.children == []
    ensures Shallow(InsertChild(t, p, leaf))
  {
    if |p| == 1 {
      var c := t.children[p[0]];
      assert InsertChild(c, p[1..], leaf) == c.(children := c.children + [leaf]);
      assert ChildrenAreLeaves(c.(children := c.children + [leaf]));
    }
  }

  /** Level and title of a node, as read from its heading line. */
  datatype Head = Head(level: int, title: string)

  /** The head of every node below `t`, in pre-order, which is document
      order. */
  function Heads(t: MarkdownNode): seq<Head> {
    HeadsOf(t.children)
  }

  function HeadsOf(cs: seq<MarkdownNode>): seq<Head> {
    if |cs| == 0 then []
    else HeadsOf(cs[..|cs| - 1]) + [Head(Last(cs).level, Last(cs).title)] + Heads(Last(cs))
  }

  /** Content lines of `t` and all its descendants, in pre-order. */
  function Lines(t: MarkdownNode): seq<string> {
    t.content + LinesOf(t.children)
  }

  function LinesOf(cs: seq<MarkdownNode>): seq<string> {
    if |cs| == 0 then [] else LinesOf(cs[..|cs| - 1]) + Lines(Last(cs))
  }

  /** Adds `c` as the last child of the node at `p`; every other node keeps
      its place. */
  function InsertChild(t: MarkdownNode, p: seq<nat>, c: MarkdownNode): (r: MarkdownNode)
    requires ValidPath(t, p)
    ensures r.level == t.level && r.title == t.title && r.content == t.content
    ensures |r.children| == |t.children| + (if |p| == 0 then 1 else 0)
    ensures ValidPath(r, p) && NodeAt(r, p).children == NodeAt(t, p).children + [c]
    ensures ValidPath(r, p + [|NodeAt(t, p).children|])
    ensures NodeAt(r, p + [|NodeAt(t, p).children|]) == c
    decreases |p|
  {
    if |p| == 0 then
      t.(children := t.children + [c])
    else
      var child := InsertChild(t.children[p[0]], p[1..], c);
      var r := t.(children := t.children[p[0] := child]);
      assert (p + [|NodeAt(t, p).children|])[1..] == p[1..] + [|NodeAt(t, p).children|];
      r
  }

  /** Appends `line` to the content of the node at `p`; the shape of the
      tree and every other node's content are unchanged. */
  function AppendContent(t: MarkdownNode, p: seq<nat>, line: string): (r: MarkdownNode)
    requires ValidPath(t, p)
    ensures r.level == t.level && r.title == t.title && |r.children| == |t.children|
    ensures ValidPath(r, p) && NodeAt(r, p).content == NodeAt(t, p).content + [line]
    ensures RightPath(r) == RightPath(t)
    decreases |p|
  {
    if |p| == 0 then
      t.(content := t.content + [line])
    else
      var child := AppendContent(t.children[p[0]], p[1..], line);
      var r := t.(children := t.children[p[0] := child]);
      assert Last(r.children) == (if p[0] == |t.children| - 1 then child else Last(t.children));
      r
  }

  /** Inserting under `p` moves no node: every old path still leads to a
      node with the same level, title and content, only the node at `p`
      gains a child, and nodes off the way to `p` are untouched. */
  lemma {:induction false} InsertChildKeeps(t: MarkdownNode, p: seq<nat>, c: MarkdownNode, q: seq<nat>)
    requires ValidPath(t, p) && ValidPath(t, q)
    ensures var r := InsertChild(t, p, c);
      ValidPath(r, q) &&
      NodeAt(r, q).level == NodeAt(t, q).level && NodeAt(r, q).title == NodeAt(t, q).title &&
      NodeAt(r, q).content == NodeAt(t, q).content &&
      |NodeAt(r, q).children| == |NodeAt(t, q).children| + (if q == p then 1 else 0) &&
      (!(q <= p) ==> NodeAt(r, q) == NodeAt(t, q))
    decreases |q|
  {
    if |q| > 0 {
      var r := InsertChild(t, p, c);
      if |p| > 0 && q[0] == p[0] {
        InsertChildKeeps(t.children[p[0]], p[1..], c, q[1..]);
        SameHead(p, q);
      } else {
        assert r.children[q[0]] == t.children[q[0]];
        assert !(q <= p) && q != p;
      }
    }
  }

  /** Appending a line at `p` moves no node and changes no other node's
      content; nodes off the way to `p` are untouched. */
  lemma {:induction false} AppendContentKeeps(t: MarkdownNode, p: seq<nat>, line: string, q: seq<nat>)
    requires ValidPath(t, p) && ValidPath(t, q)
    ensures var r := AppendContent(t, p, line);
      ValidPath(r, q) &&
      NodeAt(r, q).level == NodeAt(t, q).level && NodeAt(r, q).title == NodeAt(t, q).title &&
      NodeAt(r, q).content == NodeAt(t, q).content + (if q == p then [line] else []) &&
      |NodeAt(r, q).children| == |NodeAt(t, q).children| &&
      (!(q <= p) ==> NodeAt(r, q) == NodeAt(t, q))
    decreases |q|
  {
    if |q| > 0 {
      var r := AppendContent(t, p, line);
      if |p| > 0 && q[0] == p[0] {
        AppendContentKeeps(t.children[p[0]], p[1..], line, q[1..]);
        SameHead(p, q);
      } else {
        assert r.children[q[0]] == t.children[q[0]];
        assert !(q <= p) && q != p;
      }
    } else {
      assert q == p <==> |p| == 0;
    }
  }

  /** Two paths that start alike compare as their tails do. */
  lemma SameHead(p: seq<nat>, q: seq<nat>)
    requires |p| > 0 && |q| > 0 && q[0] == p[0]
    ensures q == p <==> q[1..] == p[1..]
    ensures q <= p <==> q[1..] <= p[1..]
  {
    if q[1..] == p[1..] {
      assert q == [q[0]] + q[1..] && p == [p[0]] + p[1..];
    }
    if q[1..] <= p[1..] {
      assert q == [q[0]] + q[1..] && p[..|q|] == [p[0]] + p[1..][..|q| - 1];
    }
  }

  /** Appends `lines`, one after the other, to the node at `p`. */
  function AppendAll(t: MarkdownNode, p: seq<nat>, lines: seq<string>): (r: MarkdownNode)
    requires ValidPath(t, p)
    ensures ValidPath(r, p) && NodeAt(r, p).content == NodeAt(t, p).content + lines
    ensures RightPath(r) == RightPath(t)
    decreases |lines|
  {
    if |lines| == 0 then t
    else
      var r := AppendAll(AppendContent(t, p, lines[0]), p, lines[1..]);
      assert [lines[0]] + lines[1..] == lines;
      r
  }

  /** A prefix of a path is a path. */
  lemma {:induction false} PrefixValid(t: MarkdownNode, q: seq<nat>, p: seq<nat>)
    requires ValidPath(t, q) && p <= q
    ensures ValidPath(t, p)
    decreases |p|
  {
    if |p| > 0 {
      assert p[0] == q[0];
      assert p[1..] <= q[1..];
      PrefixValid(t.children[q[0]], q[1..], p[1..]);
    }
  }

  /** Following the first `d` steps of the right path reaches the `d`-th
      node of the spine. */
  lemma {:induction false} SpineNode(t: MarkdownNode, d: nat)
    requires d <= |RightPath(t)|
    ensures ValidPath(t, RightPath(t)[..d])
    ensures NodeAt(t, RightPath(t)[..d]) == Spine(t)[d]
    decreases t
  {
    PrefixValid(t, RightPath(t), RightPath(t)[..d]);
    if d > 0 {
      var c := Last(t.children);
      assert RightPath(t)[..d][1..] == RightPath(c)[..d - 1];
      SpineNode(c, d - 1);
    }
  }

  /** Levels rise strictly along the right spine of an ordered tree. */
  lemma {:induction false} SpineLevelsRise(t: MarkdownNode, a: nat, b: nat)
    requires Ordered(t) && a < b < |Spine(t)|
    ensures Spine(t)[a].level < Spine(t)[b].level
    decreases t
  {
    var c := Last(t.children);
    assert Spine(t)[b] == Spine(c)[b - 1];
    if a == 0 {
      if b > 1 {
        SpineLevelsRise(c, 0, b - 1);
      }
    } else {
      assert Spine(t)[a] == Spine(c)[a - 1];
      SpineLevelsRise(c, a - 1, b - 1);
    }
  }

  /** Inserting a leaf on the right spine makes that leaf the new end of
      the spine. */
  lemma {:induction false} InsertOnSpineEndsSpine(t: MarkdownNode, p: seq<nat>, c: MarkdownNode)
    requires p <= RightPath(t) && c.children == []
    ensures ValidPath(t, p)
    ensures RightPath(InsertChild(t, p, c)) == p + [|NodeAt(t, p).children|]
    decreases |p|
  {
    PrefixValid(t, RightPath(t), p);
    if |p| > 0 {
      var i := |t.children| - 1;
      assert p[0] == i;
      assert p[1..] <= RightPath(t.children[i]);
      InsertOnSpineEndsSpine(t.children[i], p[1..], c);
      assert p + [|NodeAt(t, p).children|] == [i] + (p[1..] + [|NodeAt(t, p).children|]);
    }
  }

  /** A leaf whose level exceeds its new parent's keeps the tree ordered. */
  lemma {:induction false} InsertKeepsOrdered(t: MarkdownNode, p: seq<nat>, c: MarkdownNode)
    requires Ordered(t) && ValidPath(t, p)
    requires c.children == [] && c.level > NodeAt(t, p).level
    ensures Ordered(InsertChild(t, p, c))
    decreases |p|
  {
    if |p| > 0 {
      InsertKeepsOrdered(t.children[p[0]], p[1..], c);
    }
  }

  lemma {:induction false} AppendKeepsOrdered(t: MarkdownNode, p: seq<nat>, line: string)
    requires Ordered(t) && ValidPath(t, p)
    ensures Ordered(AppendContent(t, p, line))
    decreases |p|
  {
    if |p| > 0 {
      AppendKeepsOrdered(t.children[p[0]], p[1..], line);
    }
  }

  /** Inserting a leaf on the right spine adds exactly one heading, at the
      end of document order, and no content line. */
  lemma {:induction false} InsertOnSpineAppendsHead(t: MarkdownNode, p: seq<nat>, c: MarkdownNode)
    requires p <= RightPath(t) && c.children == [] && c.content == []
    ensures ValidPath(t, p)
    ensures Heads(InsertChild(t, p, c)) == Heads(t) + [Head(c.level, c.title)]
    ensures Lines(InsertChild(t, p, c)) == Lines(t)
    decreases |p|
  {
    PrefixValid(t, RightPath(t), p);
    var r := InsertChild(t, p, c);
    if |p| == 0 {
      assert r.children[..|r.children| - 1] == t.children;
      assert Last(r.children) == c;
      assert Heads(c) == [];
      assert LinesOf(c.children) == [];
      assert Lines(c) == c.content + LinesOf(c.children) == [];
      assert LinesOf(r.children) == LinesOf(t.children) + Lines(c);
    } else {
      var i := |t.children| - 1;
      assert p[0] == i;
      assert p[1..] <= RightPath(t.children[i]);
      InsertOnSpineAppendsHead(t.children[i], p[1..], c);
      assert r.children[..i] == t.children[..i];
    }
  }

  /** Appending at the end of the right spine adds the line at the end of
      document order. */
  lemma {:induction false} AppendAtEndAppendsLine(t: MarkdownNode, line: string)
    ensures Lines(AppendContent(t, RightPath(t), line)) == Lines(t) + [line]
    decreases t
  {
    var r := AppendContent(t, RightPath(t), line);
    if |t.children| > 0 {
      var i := |t.children| - 1;
      assert RightPath(t)[1..] == RightPath(t.children[i]);
      AppendAtEndAppendsLine(t.children[i], line);
      assert r.children[..i] == t.children[..i];
    }
  }

  /** Appending content anywhere changes no heading. */
  lemma {:induction false} AppendKeepsHeads(t: MarkdownNode, p: seq<nat>, line: string)
    requires ValidPath(t, p)
    ensures Heads(AppendContent(t, p, line)) == Heads(t)
    decreases |p|
  {
    var r := AppendContent(t, p, line);
    if |p| > 0 {
      AppendKeepsHeads(t.children[p[0]], p[1..], line);
      HeadsOfReplace(t.children, p[0], r.children[p[0]]);
    }
  }

  /** Replacing one child by a node with the same level, title and heads
      leaves the heads of the siblings unchanged. */
  lemma {:induction false} HeadsOfReplace(cs: seq<MarkdownNode>, i: nat, c: MarkdownNode)
    requires i < |cs| && c.level == cs[i].level && c.title == cs[i].title && Heads(c) == Heads(cs[i])
    ensures HeadsOf(cs[i := c]) == HeadsOf(cs)
    decreases |cs|
  {
    var cs' := cs[i := c];
    if i < |cs| - 1 {
      assert cs'[..|cs| - 1] == cs[..|cs| - 1][i := c];
      HeadsOfReplace(cs[..|cs| - 1], i, c);
    } else {
      assert cs'[..|cs| - 1] == cs[..|cs| - 1];
    }
  }

  /** Below the node itself, the spine of `t` is the spine of its last child. */
  lemma SpineOfLast(t: MarkdownNode)
    requires |t.children| > 0
    ensures |Spine(t)| == |Spine(Last(t.children))| + 1
    ensures forall d :: 0 < d < |Spine(t)| ==> Spine(t)[d] == Spine(Last(t.children))[d - 1]
  {
  }

  /** `FindParent` of gmdtree/gmdtree.go, as written. Walks the right spine
      from the root and returns the path to the FIRST last-child whose
      level is strictly below `level`; when the walk reaches the end of the
      spine without finding one, it returns the root (the empty path). */
  function FindParent(t: MarkdownNode, level: int): (p: seq<nat>)
    ensures p <= RightPath(t)
    ensures |p| > 0 ==> Spine(t)[|p|].level < level
    ensures |p| > 0 ==> forall d :: 0 < d < |p| ==> Spine(t)[d].level >= level
    ensures |p| == 0 ==> forall d :: 0 < d < |Spine(t)| ==> Spine(t)[d].level >= level
  {
    if |t.children| == 0 then []
    else if Last(t.children).level < level then [|t.children| - 1]
    else
      var c := Last(t.children);
      SpineOfLast(t);
      var q := FindParent(c, level);
      if |q| == 0 then [] else [|t.children| - 1] + q
  }

  /** The parent the heading nesting calls for: the DEEPEST node of the
      right spine whose level is strictly below `level`, i.e. the nearest
      open heading of smaller level (the root when there is none). */
  function FindParentNearest(t: MarkdownNode, level: int): (p: seq<nat>)
    ensures p <= RightPath(t)
    ensures forall d :: 0 < d <= |p| ==> Spine(t)[d].level < level
    ensures |p| + 1 < |Spine(t)| ==> Spine(t)[|p| + 1].level >= level
  {
    if |t.children| > 0 && Last(t.children).level < level then
      var c := Last(t.children);
      SpineOfLast(t);
      [|t.children| - 1] + FindParentNearest(c, level)
    else
      []
  }

  /** In an ordered tree the corrected walk stops at the deepest spine node
      of smaller level: nothing below it on the spine qualifies. */
  lemma NearestIsDeepestSmaller(t: MarkdownNode, level: int)
    requires Ordered(t) && t.level < level
    ensures var p := FindParentNearest(t, level);
      Spine(t)[|p|].level < level &&
      forall d :: |p| < d < |Spine(t)| ==> Spine(t)[d].level >= level
  {
    var p := FindParentNearest(t, level);
    forall d | |p| < d < |Spine(t)| ensures Spine(t)[d].level >= level {
      if d > |p| + 1 {
        SpineLevelsRise(t, |p| + 1, d);
      }
    }
  }

  /** In an ordered tree the walk as written never returns a node deeper
      than the root's children: a second-level node already has a level
      at least that of the first, so the walk gives up and picks the root. */
  lemma FindParentShallow(t: MarkdownNode, level: int)
    requires Ordered(t)
    ensures |FindParent(t, level)| <= 1
  {
    var p := FindParent(t, level);
    if |p| >= 2 {
      SpineLevelsRise(t, 1, |p|);
    }
  }

  /** A root with an H1 that holds an H2: a new H3 is attached to the H1 by
      the walk as written, but belongs under the H2. */
  lemma FindParentSkipsNearer()
    ensures FindParent(TreeAB, 3) == [0] && FindParentNearest(TreeAB, 3) == [0, 0]
  {
  }

  /** The trees the document "# A", "## B", "### C" passes through: after
      "# A", after "## B", after "### C" with the walk as written, and after
      "### C" with the corrected rule. */
  const TreeA := MarkdownNode(0, "Root", [], [Leaf(1, "A")])
  const TreeAB := MarkdownNode(0, "Root", [], [MarkdownNode(1, "A", [], [Leaf(2, "B")])])
  const TreeABC := MarkdownNode(0, "Root", [], [MarkdownNode(1, "A", [], [Leaf(2, "B"), Leaf(3, "C")])])
  const TreeNested := MarkdownNode(0, "Root", [], [MarkdownNode(1, "A", [], [MarkdownNode(2, "B", [], [Leaf(3, "C")])])])
}
