/**
  `parseFile` of greadme.go: one pass over the lines of a README that
  collects the badge lines and, per section heading, the lines up to the
  next heading. The file is given as its lines; opening and scanning it are
  not modelled.
*/
module ReadmeParse {
  import opened Text
  import opened ReadmePatterns

  /** What `parseFile` returns: each section's lines by name, and the badge
      lines in order. */
  datatype Readme = Readme(sections: map<string, seq<string>>, badges: seq<string>)

  /** The loop's variables: the two results so far and `currentSection`. */
  datatype ScanState = ScanState(sections: map<string, seq<string>>, badges: seq<string>, current: string)

  const Start: ScanState := ScanState(map[], [], "")

  predicate IsHeading(line: string) {
    ReadmeTitle(line).Some?
  }

  /** Go's read of a missing map key yields the nil slice. */
  function Lookup(m: map<string, seq<string>>, k: string): seq<string> {
    if k in m then m[k] else []
  }

  /** One iteration: a badge line is recorded whatever else it is; a
      heading opens (or reopens, emptied) its section and makes it current;
      any other line is added to the current section, unless the current
      name is empty. */
  function ScanLine(s: ScanState, line: string): ScanState {
    var badges := if IsBadge(line) then s.badges + [line] else s.badges;
    match ReadmeTitle(line)
    case Some(t) => ScanState(s.sections[t := []], badges, t)
    case None =>
      if s.current != "" then
        ScanState(s.sections[s.current := Lookup(s.sections, s.current) + [line]], badges, s.current)
      else
        ScanState(s.sections, badges, s.current)
  }

  function ScanFrom(s: ScanState, lines: seq<string>): ScanState {
    if |lines| == 0 then s else ScanLine(ScanFrom(s, lines[..|lines| - 1]), Last(lines))
  }

  function ParseFile(lines: seq<string>): Readme {
    var s := ScanFrom(Start, lines);
    Readme(s.sections, s.badges)
  }

  /** The loop can be split anywhere. */
  lemma {:induction false} ScanAppend(s: ScanState, a: seq<string>, b: seq<string>)
    ensures ScanFrom(s, a + b) == ScanFrom(ScanFrom(s, a), b)
    decreases |b|
  {
    if |b| == 0 {
      assert a + b == a;
    } else {
      assert (a + b)[..|a + b| - 1] == a + b[..|b| - 1];
      ScanAppend(s, a, b[..|b| - 1]);
    }
  }

  // ---------------------------------------------------------------------
  // Badges

  /** The badges found do not depend on the sections or the current name. */
  lemma {:induction false} BadgesFrom(s: ScanState, lines: seq<string>)
    ensures ScanFrom(s, lines).badges == s.badges + ScanFrom(Start, lines).badges
  {
    if |lines| > 0 {
      BadgesFrom(s, lines[..|lines| - 1]);
    }
  }

  /** Exactly the badge lines are collected. */
  lemma {:induction false} BadgesAreBadgeLines(lines: seq<string>)
    ensures forall x :: x in ParseFile(lines).badges <==> x in lines && IsBadge(x)
  {
    if |lines| > 0 {
      var init := lines[..|lines| - 1];
      BadgesAreBadgeLines(init);
      assert lines == init + [Last(lines)];
    }
  }

  /** Badges are kept in file order: the badges of a concatenation are the
      badges of the first part followed by those of the second. */
  lemma BadgesInOrder(a: seq<string>, b: seq<string>)
    ensures ParseFile(a + b).badges == ParseFile(a).badges + ParseFile(b).badges
  {
    ScanAppend(Start, a, b);
    BadgesFrom(ScanFrom(Start, a), b);
  }

  /** A single line is a badge, and recorded as one, exactly when the badge
      pattern occurs in it. */
  lemma OneLineBadge(line: string)
    ensures ParseFile([line]).badges == if IsBadge(line) then [line] else []
    ensures |ParseFile([line]).badges| == 1 <==> exists a, b, c :: BadgeAt(line, a, b, c)
  {
    assert [line][..0] == [];
    assert ScanFrom(Start, [line]) == ScanLine(Start, line);
    assert Start.badges + [line] == [line];
    IsBadgeSpec(line);
  }

  // ---------------------------------------------------------------------
  // Sections

  /** Every section was opened by a heading of that name. */
  lemma {:induction false} SectionNames(lines: seq<string>)
    ensures forall k :: k in ParseFile(lines).sections <==>
      exists i :: 0 <= i < |lines| && ReadmeTitle(lines[i]) == Some(k)
  {
    if |lines| > 0 {
      var init := lines[..|lines| - 1];
      SectionNames(init);
      forall k | k in ParseFile(lines).sections
        ensures exists i :: 0 <= i < |lines| && ReadmeTitle(lines[i]) == Some(k)
      {
        if ReadmeTitle(Last(lines)) != Some(k) {
          var i :| 0 <= i < |init| && ReadmeTitle(init[i]) == Some(k);
          assert lines[i] == init[i];
        }
      }
      forall k, i | 0 <= i < |lines| && ReadmeTitle(lines[i]) == Some(k)
        ensures k in ParseFile(lines).sections
      {
        if i < |init| {
          assert init[i] == lines[i];
        }
      }
    }
  }

  /** What the scan keeps true: section lines are non-heading lines of the
      input, and a section with the empty name never receives a line. */
  ghost predicate Inv(s: ScanState, lines: seq<string>) {
    ("" in s.sections ==> s.sections[""] == []) &&
    forall k, x :: k in s.sections && x in s.sections[k] ==> x in lines && !IsHeading(x)
  }

  lemma {:induction false} ScanInv(lines: seq<string>)
    ensures Inv(ScanFrom(Start, lines), lines)
  {
    if |lines| > 0 {
      var init := lines[..|lines| - 1];
      ScanInv(init);
      assert lines == init + [Last(lines)];
      var s := ScanFrom(Start, init);
      forall k, x | k in s.sections && x in s.sections[k] ensures x in lines {
        assert x in init;
      }
    }
  }

  /** Section lines are lines of the file that are not headings, and a
      heading with an empty name starts a section that stays empty. */
  lemma SectionLinesFromFile(lines: seq<string>)
    ensures forall k, x :: k in ParseFile(lines).sections && x in ParseFile(lines).sections[k] ==>
      x in lines && !IsHeading(x)
    ensures "" in ParseFile(lines).sections ==> ParseFile(lines).sections[""] == []
  {
    ScanInv(lines);
  }

  /** Without a heading there are no sections. */
  lemma {:induction false} NoHeadingsNoSections(lines: seq<string>)
    requires forall i :: 0 <= i < |lines| ==> !IsHeading(lines[i])
    ensures ParseFile(lines).sections == map[]
    ensures ScanFrom(Start, lines).current == ""
  {
    if |lines| > 0 {
      NoHeadingsNoSections(lines[..|lines| - 1]);
    }
  }

  /** With no current section, lines that are not headings are dropped. */
  lemma {:induction false} NoSectionDrops(s: ScanState, lines: seq<string>)
    requires s.current == ""
    requires forall i :: 0 <= i < |lines| ==> !IsHeading(lines[i])
    ensures ScanFrom(s, lines).sections == s.sections
    ensures ScanFrom(s, lines).current == ""
  {
    if |lines| > 0 {
      NoSectionDrops(s, lines[..|lines| - 1]);
    }
  }

  /** The sections found do not depend on the badges found so far. */
  lemma {:induction false} SectionsIgnoreBadges(s: ScanState, t: ScanState, lines: seq<string>)
    requires s.sections == t.sections && s.current == t.current
    ensures ScanFrom(s, lines).sections == ScanFrom(t, lines).sections
    ensures ScanFrom(s, lines).current == ScanFrom(t, lines).current
  {
    if |lines| > 0 {
      SectionsIgnoreBadges(s, t, lines[..|lines| - 1]);
    }
  }

  /** Lines before the first heading belong to no section. */
  lemma LeadingLinesDropped(pre: seq<string>, rest: seq<string>)
    requires forall i :: 0 <= i < |pre| ==> !IsHeading(pre[i])
    ensures ParseFile(pre + rest).sections == ParseFile(rest).sections
  {
    ScanAppend(Start, pre, rest);
    NoSectionDrops(Start, pre);
    SectionsIgnoreBadges(ScanFrom(Start, pre), Start, rest);
  }

  /** A heading whose name is empty swallows the lines that follow it, up
      to the next heading: they change no section. */
  lemma EmptyHeadingSwallows(pre: seq<string>, h: string, body: seq<string>)
    requires ReadmeTitle(h) == Some("")
    requires forall i :: 0 <= i < |body| ==> !IsHeading(body[i])
    ensures ParseFile(pre + [h] + body).sections == ParseFile(pre + [h]).sections
  {
    ScanAppend(Start, pre + [h], body);
    ScanAppend(Start, pre, [h]);
    ScanOne(ScanFrom(Start, pre), h);
    NoSectionDrops(ScanFrom(Start, pre + [h]), body);
  }

  /** Lines that are not headings, read while section `k` is current, are
      added to it in order and touch nothing else. */
  lemma {:induction false} BodyAppends(s: ScanState, body: seq<string>)
    requires s.current != "" && s.current in s.sections
    requires forall i :: 0 <= i < |body| ==> !IsHeading(body[i])
    ensures ScanFrom(s, body).current == s.current
    ensures ScanFrom(s, body).sections ==
      s.sections[s.current := Lookup(s.sections, s.current) + body]
  {
    if |body| == 0 {
      assert s.sections[s.current] + body == s.sections[s.current];
      assert s.sections[s.current := s.sections[s.current]] == s.sections;
    } else {
      var init := body[..|body| - 1];
      BodyAppends(s, init);
      var s' := ScanFrom(s, init);
      assert Lookup(s'.sections, s.current) == Lookup(s.sections, s.current) + init;
      assert !IsHeading(Last(body));
      assert Lookup(s.sections, s.current) + init + [Last(body)] ==
        Lookup(s.sections, s.current) + body;
    }
  }

  /** While no heading names `k` and `k` is not current, section `k` keeps
      its lines. */
  lemma {:induction false} OtherSectionsKeep(s: ScanState, rest: seq<string>, k: string)
    requires s.current != k
    requires forall i :: 0 <= i < |rest| ==> ReadmeTitle(rest[i]) != Some(k)
    ensures ScanFrom(s, rest).current != k
    ensures Lookup(ScanFrom(s, rest).sections, k) == Lookup(s.sections, k)
    ensures k in s.sections ==> k in ScanFrom(s, rest).sections
  {
    if |rest| > 0 {
      OtherSectionsKeep(s, rest[..|rest| - 1], k);
    }
  }

  /** Reading one line is one iteration. */
  lemma ScanOne(s: ScanState, line: string)
    ensures ScanFrom(s, [line]) == ScanLine(s, line)
  {
    assert [line][..0] == [];
  }

  /** From a heading of another name on, section `k` keeps its lines. */
  lemma AfterSection(s: ScanState, post: seq<string>, k: string)
    requires k in s.sections
    requires |post| == 0 || IsHeading(post[0])
    requires forall i :: 0 <= i < |post| ==> ReadmeTitle(post[i]) != Some(k)
    ensures k in ScanFrom(s, post).sections
    ensures ScanFrom(s, post).sections[k] == s.sections[k]
  {
    if |post| > 0 {
      ScanAppend(s, [post[0]], post[1..]);
      assert [post[0]] + post[1..] == post;
      ScanOne(s, post[0]);
      var s1 := ScanLine(s, post[0]);
      forall i | 0 <= i < |post[1..]| ensures ReadmeTitle(post[1..][i]) != Some(k) {
        assert post[1..][i] == post[i + 1];
      }
      OtherSectionsKeep(s1, post[1..], k);
    }
  }

  /** A named section holds exactly the lines between its last heading and
      the next heading (or the end of the file). */
  lemma SectionBody(pre: seq<string>, h: string, body: seq<string>, post: seq<string>, k: string)
    requires ReadmeTitle(h) == Some(k) && k != ""
    requires forall i :: 0 <= i < |body| ==> !IsHeading(body[i])
    requires |post| == 0 || IsHeading(post[0])
    requires forall i :: 0 <= i < |post| ==> ReadmeTitle(post[i]) != Some(k)
    ensures k in ParseFile(pre + [h] + body + post).sections
    ensures ParseFile(pre + [h] + body + post).sections[k] == body
  {
    ScanAppend(Start, pre + [h] + body, post);
    ScanAppend(Start, pre + [h], body);
    ScanAppend(Start, pre, [h]);
    ScanOne(ScanFrom(Start, pre), h);
    var s1 := ScanFrom(Start, pre + [h]);
    BodyAppends(s1, body);
    AfterSection(ScanFrom(s1, body), post, k);
  }
}
