/**
  The two line patterns of the README checker (greadme.go): the section
  heading pattern, whose capture names the section, and the unanchored
  shields.io badge pattern. Each is an explicit matcher together with a
  declarative reading of the regular expression.
*/
module ReadmePatterns {
  import opened Text

  // ---------------------------------------------------------------------
  // `^(#+)\s+(.*)`

  /** The pattern can match `line` with `k` hashes: one or more `#`, then
      at least one whitespace character. Nothing is required after it. */
  ghost predicate HashRunThenSpace(line: string, k: int) {
    1 <= k < |line| && All(line[..k], IsHash) && IsSpace(line[k])
  }

  /** Where the capture starts and ends: the greedy `#+` and `\s+` take
      whole runs, and the greedy `.*` runs to the first newline or to the
      end of the line. */
  ghost predicate CaptureBounds(line: string, k: int, e: int, m: int) {
    HashRunThenSpace(line, k) && k < e <= m <= |line| &&
    All(line[k..e], IsSpace) && (e < |line| ==> !IsSpace(line[e])) &&
    NoNewline(line[e..m]) && (m < |line| ==> line[m] == '\n')
  }

  /** `titleRegex` of greadme.go: the captured section name, which may be
      empty. */
  function ReadmeTitle(line: string): Option<string> {
    var k := Span(line, IsHash);
    if k == 0 || k == |line| || !IsSpace(line[k]) then None
    else
      var e := SpanFrom(line, IsSpace, k);
      Some(line[e..SpanFrom(line, IsNotNewline, e)])
  }

  lemma ReadmeTitleSound(line: string)
    requires ReadmeTitle(line).Some?
    ensures exists k, e, m :: CaptureBounds(line, k, e, m) && ReadmeTitle(line).value == line[e..m]
  {
    var k := Span(line, IsHash);
    var e := SpanFrom(line, IsSpace, k);
    var m := SpanFrom(line, IsNotNewline, e);
    assert All(line[k..e], IsSpace) by {
      assert forall i :: 0 <= i < e - k ==> line[k..e][i] == line[k + i];
    }
    assert NoNewline(line[e..m]) by {
      assert forall i :: 0 <= i < m - e ==> line[e..m][i] == line[e + i];
    }
    assert CaptureBounds(line, k, e, m);
  }

  lemma ReadmeTitleComplete(line: string, k: int)
    requires HashRunThenSpace(line, k)
    ensures ReadmeTitle(line).Some?
  {
    SpanExact(line, IsHash, k);
  }

  /** A line is a section heading exactly when one or more `#` are followed
      by whitespace; the name is what follows the whole whitespace run, up
      to the first newline. */
  lemma ReadmeTitleSpec(line: string)
    ensures ReadmeTitle(line).Some? <==> exists k :: HashRunThenSpace(line, k)
    ensures ReadmeTitle(line).Some? ==>
      exists k, e, m :: CaptureBounds(line, k, e, m) && ReadmeTitle(line).value == line[e..m]
  {
    if ReadmeTitle(line).Some? {
      ReadmeTitleSound(line);
    }
    forall k | HashRunThenSpace(line, k) ensures ReadmeTitle(line).Some? {
      ReadmeTitleComplete(line, k);
    }
  }

  /** A hash run followed only by whitespace is a heading with the empty
      name. */
  lemma BlankHeadingNamesEmpty(hashes: nat, blank: string)
    requires hashes >= 1 && |blank| >= 1 && All(blank, IsSpace)
    ensures ReadmeTitle(HashLine(hashes) + blank) == Some("")
  {
    var line := HashLine(hashes) + blank;
    assert line[..hashes] == HashLine(hashes);
    assert line[hashes] == blank[0];
    SpanExact(line, IsHash, hashes);
    var e := SpanFrom(line, IsSpace, hashes);
    assert forall j :: hashes <= j < |line| ==> line[j] == blank[j - hashes];
    assert e == |line|;
    assert IsSpace(line[hashes]);
    assert SpanFrom(line, IsNotNewline, e) == |line|;
    assert line[e..|line|] == "";
    assert Span(line, IsHash) == hashes;
    assert ReadmeTitle(line) == Some(line[e..SpanFrom(line, IsNotNewline, e)]);
  }

  function HashLine(n: nat): (s: string)
    ensures |s| == n && All(s, IsHash)
  {
    if n == 0 then [] else HashLine(n - 1) + ['#']
  }

  // ---------------------------------------------------------------------
  // `!\[.*\]\(https://img\.shields\.io.*\)`, unanchored

  /** The literal text between the two `.*` of the badge pattern. */
  const ShieldsMarker: string := "](https://img.shields.io"

  /** `w` occurs in `s` at `i`. */
  predicate Occurs(s: string, i: int, w: string) {
    0 <= i && i + |w| <= |s| && forall k :: 0 <= k < |w| ==> s[i + k] == w[k]
  }

  /** RE2 `.*` can span `line[i..j]`: no newline in between. */
  ghost predicate SameLine(line: string, i: int, j: int) {
    0 <= i <= j <= |line| && forall k :: i <= k < j ==> line[k] != '\n'
  }

  /** `.*\)` matched from `i` with the closing parenthesis at `c`. */
  ghost predicate CloseAt(line: string, i: int, c: int) {
    SameLine(line, i, c) && c < |line| && line[c] == ')'
  }

  ghost predicate HasClose(line: string, i: int) {
    exists c :: CloseAt(line, i, c)
  }

  /** `.*` matched from `i` up to the marker at `b`. */
  ghost predicate MarkerAt(line: string, i: int, b: int) {
    SameLine(line, i, b) && Occurs(line, b, ShieldsMarker)
  }

  /** `.*\]\(https://img\.shields\.io.*\)` matched from `i`. */
  ghost predicate HasMarker(line: string, i: int) {
    exists b :: MarkerAt(line, i, b) && HasClose(line, b + |ShieldsMarker|)
  }

  /** A match of the badge pattern: `![` at `a`, the marker at `b`, the
      closing parenthesis at `c`, with no newline anywhere in between. */
  ghost predicate BadgeAt(line: string, a: int, b: int, c: int) {
    Occurs(line, a, "![") && MarkerAt(line, a + 2, b) && CloseAt(line, b + |ShieldsMarker|, c)
  }

  function CloseFrom(line: string, i: nat): bool
    requires i <= |line|
    decreases |line| - i
  {
    i < |line| && line[i] != '\n' && (line[i] == ')' || CloseFrom(line, i + 1))
  }

  function MarkerFrom(line: string, i: nat): bool
    requires i <= |line|
    decreases |line| - i
  {
    if i == |line| then false
    else if Occurs(line, i, ShieldsMarker) && CloseFrom(line, i + |ShieldsMarker|) then true
    else line[i] != '\n' && MarkerFrom(line, i + 1)
  }

  function OpenFrom(line: string, i: nat): bool
    requires i <= |line|
    decreases |line| - i
  {
    if i == |line| then false
    else if Occurs(line, i, "![") && MarkerFrom(line, i + 2) then true
    else OpenFrom(line, i + 1)
  }

  /** `badgeRegex.MatchString` of greadme.go. */
  function IsBadge(line: string): bool {
    OpenFrom(line, 0)
  }

  lemma {:induction false} CloseFromSpec(line: string, i: nat)
    requires i <= |line|
    ensures CloseFrom(line, i) <==> HasClose(line, i)
    decreases |line| - i
  {
    if i < |line| {
      if line[i] == ')' {
        assert CloseAt(line, i, i);
      } else if line[i] != '\n' {
        CloseFromSpec(line, i + 1);
        if HasClose(line, i + 1) {
          var c :| CloseAt(line, i + 1, c);
          assert CloseAt(line, i, c);
        }
        if HasClose(line, i) {
          var c :| CloseAt(line, i, c);
          assert CloseAt(line, i + 1, c);
        }
      } else {
        forall c | CloseAt(line, i, c) ensures false { }
      }
    }
  }

  lemma {:induction false} MarkerFromSpec(line: string, i: nat)
    requires i <= |line|
    ensures MarkerFrom(line, i) <==> HasMarker(line, i)
    decreases |line| - i
  {
    var n := |ShieldsMarker|;
    if i < |line| {
      if Occurs(line, i, ShieldsMarker) && CloseFrom(line, i + n) {
        CloseFromSpec(line, i + n);
        assert MarkerAt(line, i, i);
      } else {
        if Occurs(line, i, ShieldsMarker) {
          CloseFromSpec(line, i + n);
        }
        if line[i] != '\n' {
          MarkerFromSpec(line, i + 1);
          if HasMarker(line, i + 1) {
            var b :| MarkerAt(line, i + 1, b) && HasClose(line, b + n);
            assert MarkerAt(line, i, b);
          }
          if HasMarker(line, i) {
            var b :| MarkerAt(line, i, b) && HasClose(line, b + n);
            assert b != i;
            assert MarkerAt(line, i + 1, b);
          }
        } else {
          forall b | MarkerAt(line, i, b) && HasClose(line, b + n) ensures false { }
        }
      }
    }
  }

  lemma {:induction false} OpenFromSpec(line: string, i: nat)
    requires i <= |line|
    ensures OpenFrom(line, i) <==> exists a :: i <= a && Occurs(line, a, "![") && HasMarker(line, a + 2)
    decreases |line| - i
  {
    if i < |line| {
      if Occurs(line, i, "![") {
        MarkerFromSpec(line, i + 2);
      }
      if !(Occurs(line, i, "![") && MarkerFrom(line, i + 2)) {
        OpenFromSpec(line, i + 1);
      }
    }
  }

  /** A line is a badge exactly when the pattern occurs somewhere in it. */
  lemma IsBadgeSpec(line: string)
    ensures IsBadge(line) <==> exists a, b, c :: BadgeAt(line, a, b, c)
  {
    OpenFromSpec(line, 0);
    if IsBadge(line) {
      var a :| 0 <= a && Occurs(line, a, "![") && HasMarker(line, a + 2);
      var b :| MarkerAt(line, a + 2, b) && HasClose(line, b + |ShieldsMarker|);
      var c :| CloseAt(line, b + |ShieldsMarker|, c);
      assert BadgeAt(line, a, b, c);
    }
    forall a, b, c | BadgeAt(line, a, b, c) ensures IsBadge(line) {
      assert HasClose(line, b + |ShieldsMarker|);
      assert HasMarker(line, a + 2);
    }
  }

  /** The pattern is unanchored: text around a badge keeps it a badge. */
  lemma BadgeInContext(pre: string, line: string, post: string)
    requires IsBadge(line)
    ensures IsBadge(pre + line + post)
  {
    IsBadgeSpec(line);
    var a, b, c :| BadgeAt(line, a, b, c);
    var o := |pre|;
    var n := |ShieldsMarker|;
    OccursShift(pre, line, post, a, "![");
    OccursShift(pre, line, post, b, ShieldsMarker);
    SameLineShift(pre, line, post, a + 2, b);
    SameLineShift(pre, line, post, b + n, c);
    assert (pre + line + post)[c + o] == line[c];
    assert BadgeAt(pre + line + post, a + o, b + o, c + o);
    IsBadgeSpec(pre + line + post);
  }

  lemma OccursShift(pre: string, line: string, post: string, i: int, w: string)
    requires Occurs(line, i, w)
    ensures Occurs(pre + line + post, i + |pre|, w)
  {
    var l := pre + line + post;
    forall k | 0 <= k < |w| ensures l[i + |pre| + k] == w[k] {
      assert l[i + |pre| + k] == line[i + k];
    }
  }

  lemma SameLineShift(pre: string, line: string, post: string, i: int, j: int)
    requires SameLine(line, i, j)
    ensures SameLine(pre + line + post, i + |pre|, j + |pre|)
  {
    var l := pre + line + post;
    forall k | i + |pre| <= k < j + |pre| ensures l[k] != '\n' {
      assert l[k] == line[k - |pre|];
    }
  }
}
