/**
  `compareAndGenerateImprovedReadme` and `contains` of greadme.go: the
  improved README as the sequence of pieces the function writes into its
  builder. Each piece is one `WriteString` (the missing-badge note and the
  badge it precedes are one call in the source, two pieces here; the text
  is the same). The order in which Go ranges over the template's section
  map is not fixed, so it is a parameter.
*/
module ReadmeCompare {
  import opened Text
  import opened ReadmeParse

  /** `contains`: whether `item` is among `slice`. */
  function Contains(slice: seq<string>, item: string): (found: bool)
    ensures found <==> item in slice
  {
    if |slice| == 0 then false else slice[0] == item || Contains(slice[1..], item)
  }

  datatype Piece =
    | BadgeLine(badge: string)
    | BadgesEnd
    | SectionHeading(name: string)
    | SectionText(lines: seq<string>)
    | MissingBadgeNote
    | ReviewNote
    | MissingSectionNote

  const MissingBadgeComment: string := "<!-- TODO: Insert missing badge -->\n"
  const ReviewComment: string := "<!-- TODO: Review and update this section -->\n"
  const MissingSectionComment: string := "<!-- TODO: Add missing section -->\n"

  /** The text a piece adds to the improved README. */
  function PieceText(p: Piece): string {
    match p
    case BadgeLine(b) => b + "\n"
    case BadgesEnd => "\n"
    case SectionHeading(n) => "## " + n + "\n"
    case SectionText(ls) => Join(ls, "\n") + "\n\n"
    case MissingBadgeNote => MissingBadgeComment
    case ReviewNote => ReviewComment
    case MissingSectionNote => MissingSectionComment
  }

  /** The builder's final contents. */
  function Output(ps: seq<Piece>): string {
    if |ps| == 0 then "" else Output(ps[..|ps| - 1]) + PieceText(Last(ps))
  }

  /** One template badge: copied, with a note before it when the README
      lacks it. */
  function BadgePieces(badge: string, readmeBadges: seq<string>): seq<Piece> {
    if Contains(readmeBadges, badge) then [BadgeLine(badge)] else [MissingBadgeNote, BadgeLine(badge)]
  }

  function BadgeLoop(templateBadges: seq<string>, readmeBadges: seq<string>): seq<Piece> {
    if |templateBadges| == 0 then []
    else
      BadgeLoop(templateBadges[..|templateBadges| - 1], readmeBadges) +
      BadgePieces(Last(templateBadges), readmeBadges)
  }

  /** One template section: its heading, then the README's text (with a
      review note when the joined texts differ) if the README has the
      section, else a note and the template's text. */
  function SectionPieces(name: string, templateContent: seq<string>, readmeSections: map<string, seq<string>>): seq<Piece> {
    [SectionHeading(name)] +
    if name in readmeSections then
      (if Join(templateContent, "\n") != Join(readmeSections[name], "\n") then [ReviewNote] else []) +
      [SectionText(readmeSections[name])]
    else
      [MissingSectionNote, SectionText(templateContent)]
  }

  function SectionLoop(order: seq<string>, templateSections: map<string, seq<string>>, readmeSections: map<string, seq<string>>): seq<Piece>
    requires forall i :: 0 <= i < |order| ==> order[i] in templateSections
  {
    if |order| == 0 then []
    else
      SectionLoop(order[..|order| - 1], templateSections, readmeSections) +
      SectionPieces(Last(order), templateSections[Last(order)], readmeSections)
  }

  /** `order` is one way of ranging over the keys of `m`: each key once. */
  predicate ListsKeys(order: seq<string>, m: map<string, seq<string>>) {
    (forall k :: k in m ==> k in order) &&
    (forall i :: 0 <= i < |order| ==> order[i] in m) &&
    Distinct(order)
  }

  /** No name occurs twice. */
  predicate Distinct(order: seq<string>) {
    forall i, j :: 0 <= i < j < |order| ==> order[i] != order[j]
  }

  /** Everything written into the builder, in order. */
  function Improve(template: Readme, readme: Readme, order: seq<string>): seq<Piece>
    requires ListsKeys(order, template.sections)
  {
    BadgeLoop(template.badges, readme.badges) + [BadgesEnd] +
    SectionLoop(order, template.sections, readme.sections)
  }

  /** The improved README for a template and a README given as lines. */
  function ImprovedReadme(templateLines: seq<string>, readmeLines: seq<string>, order: seq<string>): string
    requires ListsKeys(order, ParseFile(templateLines).sections)
  {
    Output(Improve(ParseFile(templateLines), ParseFile(readmeLines), order))
  }

  // ---------------------------------------------------------------------
  // Reading the pieces back (how often a piece was written is its
  // multiplicity in `multiset(ps)`)

  /** The badges written, in order. */
  function BadgesWritten(ps: seq<Piece>): seq<string> {
    if |ps| == 0 then []
    else BadgesWritten(ps[..|ps| - 1]) + if Last(ps).BadgeLine? then [Last(ps).badge] else []
  }

  /** The section headings written, in order. */
  function SectionsWritten(ps: seq<Piece>): seq<string> {
    if |ps| == 0 then []
    else SectionsWritten(ps[..|ps| - 1]) + if Last(ps).SectionHeading? then [Last(ps).name] else []
  }

  /** The section headings and texts written, in order, notes left out. */
  function Outline(ps: seq<Piece>): seq<Piece> {
    if |ps| == 0 then []
    else Outline(ps[..|ps| - 1]) + if Last(ps).SectionHeading? || Last(ps).SectionText? then [Last(ps)] else []
  }

  lemma {:induction false} BadgesWrittenAppend(a: seq<Piece>, b: seq<Piece>)
    ensures BadgesWritten(a + b) == BadgesWritten(a) + BadgesWritten(b)
    decreases |b|
  {
    if |b| == 0 {
      assert a + b == a;
    } else {
      assert (a + b)[..|a + b| - 1] == a + b[..|b| - 1];
      BadgesWrittenAppend(a, b[..|b| - 1]);
    }
  }

  lemma {:induction false} SectionsWrittenAppend(a: seq<Piece>, b: seq<Piece>)
    ensures SectionsWritten(a + b) == SectionsWritten(a) + SectionsWritten(b)
    decreases |b|
  {
    if |b| == 0 {
      assert a + b == a;
    } else {
      assert (a + b)[..|a + b| - 1] == a + b[..|b| - 1];
      SectionsWrittenAppend(a, b[..|b| - 1]);
    }
  }

  lemma {:induction false} OutlineAppend(a: seq<Piece>, b: seq<Piece>)
    ensures Outline(a + b) == Outline(a) + Outline(b)
    decreases |b|
  {
    if |b| == 0 {
      assert a + b == a;
    } else {
      assert (a + b)[..|a + b| - 1] == a + b[..|b| - 1];
      OutlineAppend(a, b[..|b| - 1]);
    }
  }

  lemma {:induction false} OutputAppend(a: seq<Piece>, b: seq<Piece>)
    ensures Output(a + b) == Output(a) + Output(b)
    decreases |b|
  {
    if |b| == 0 {
      assert a + b == a;
    } else {
      var init, p := b[..|b| - 1], Last(b);
      assert Output(a + b) == Output(a + init) + PieceText(p) by {
        SplitLast(b);
        assert a + b == (a + init) + [p];
        OutputSnoc(a + init, p);
      }
      assert Output(b) == Output(init) + PieceText(p) by {
        SplitLast(b);
        OutputSnoc(init, p);
      }
      OutputAppend(a, init);
    }
  }

  lemma OutputSnoc(ps: seq<Piece>, p: Piece)
    ensures Output(ps + [p]) == Output(ps) + PieceText(p)
  {
    assert (ps + [p])[..|ps|] == ps;
  }

  /** Reading back a single piece. */
  lemma ReadBackOne(p: Piece)
    ensures BadgesWritten([p]) == if p.BadgeLine? then [p.badge] else []
    ensures SectionsWritten([p]) == if p.SectionHeading? then [p.name] else []
    ensures Output([p]) == PieceText(p)
  {
    assert [p][..0] == [];
  }

  // ---------------------------------------------------------------------
  // Badges

  /** A template badge is written once, as the last piece, after a note
      exactly when the README lacks it. */
  lemma BadgeNoteIffMissing(badge: string, readmeBadges: seq<string>)
    ensures BadgesWritten(BadgePieces(badge, readmeBadges)) == [badge]
    ensures SectionsWritten(BadgePieces(badge, readmeBadges)) == []
    ensures multiset(BadgePieces(badge, readmeBadges))[MissingBadgeNote] ==
      if badge in readmeBadges then 0 else 1
    ensures var ps := BadgePieces(badge, readmeBadges);
      |ps| > 0 && Last(ps) == BadgeLine(badge) &&
      forall i :: 0 <= i < |ps| - 1 ==> ps[i] == MissingBadgeNote
  {
    BadgePiecesRead(badge, readmeBadges);
    var ps := BadgePieces(badge, readmeBadges);
    assert ps == if badge in readmeBadges then [BadgeLine(badge)] else [MissingBadgeNote, BadgeLine(badge)];
  }

  /** What the pieces of one template badge read back as. */
  lemma BadgePiecesRead(badge: string, readmeBadges: seq<string>)
    ensures BadgesWritten(BadgePieces(badge, readmeBadges)) == [badge]
    ensures SectionsWritten(BadgePieces(badge, readmeBadges)) == []
    ensures multiset(BadgePieces(badge, readmeBadges))[MissingBadgeNote] ==
      if badge in readmeBadges then 0 else 1
  {
    ReadBackOne(BadgeLine(badge));
    if badge !in readmeBadges {
      ReadBackOne(MissingBadgeNote);
      BadgesWrittenAppend([MissingBadgeNote], [BadgeLine(badge)]);
      SectionsWrittenAppend([MissingBadgeNote], [BadgeLine(badge)]);
    }
  }

  /** The text written for one template badge. */
  lemma BadgeText(badge: string, readmeBadges: seq<string>)
    ensures Output(BadgePieces(badge, readmeBadges)) ==
      if badge in readmeBadges then badge + "\n"
      else MissingBadgeComment + badge + "\n"
  {
    ReadBackOne(BadgeLine(badge));
    if badge !in readmeBadges {
      assert Output([MissingBadgeNote, BadgeLine(badge)]) == MissingBadgeComment + (badge + "\n") by {
        ReadBackOne(MissingBadgeNote);
        assert [MissingBadgeNote, BadgeLine(badge)] == [MissingBadgeNote] + [BadgeLine(badge)];
        OutputAppend([MissingBadgeNote], [BadgeLine(badge)]);
      }
      assert MissingBadgeComment + (badge + "\n") == MissingBadgeComment + badge + "\n";
    }
  }

  /** Template badge positions the README lacks. */
  function MissingAt(templateBadges: seq<string>, readmeBadges: seq<string>): set<int> {
    set i | 0 <= i < |templateBadges| && templateBadges[i] !in readmeBadges
  }

  /** Every template badge is written once, in template order, and there
      is one note per template badge the README lacks. */
  lemma {:induction false} BadgeLoopSpec(templateBadges: seq<string>, readmeBadges: seq<string>)
    ensures BadgesWritten(BadgeLoop(templateBadges, readmeBadges)) == templateBadges
    ensures SectionsWritten(BadgeLoop(templateBadges, readmeBadges)) == []
    ensures multiset(BadgeLoop(templateBadges, readmeBadges))[MissingBadgeNote] ==
      |MissingAt(templateBadges, readmeBadges)|
    ensures MissingSectionNote !in BadgeLoop(templateBadges, readmeBadges)
    ensures ReviewNote !in BadgeLoop(templateBadges, readmeBadges)
  {
    var n := |templateBadges|;
    if n > 0 {
      var init := templateBadges[..n - 1];
      var b := Last(templateBadges);
      BadgeLoopSpec(init, readmeBadges);
      BadgesWrittenAppend(BadgeLoop(init, readmeBadges), BadgePieces(b, readmeBadges));
      SectionsWrittenAppend(BadgeLoop(init, readmeBadges), BadgePieces(b, readmeBadges));
      BadgePiecesRead(b, readmeBadges);
      MissingAtStep(templateBadges, readmeBadges);
      SplitLast(templateBadges);
    }
  }

  lemma MissingAtStep(templateBadges: seq<string>, readmeBadges: seq<string>)
    requires |templateBadges| > 0
    ensures var n := |templateBadges|;
      |MissingAt(templateBadges, readmeBadges)| ==
      |MissingAt(templateBadges[..n - 1], readmeBadges)| + if Last(templateBadges) in readmeBadges then 0 else 1
  {
    var n := |templateBadges|;
    var prev := MissingAt(templateBadges[..n - 1], readmeBadges);
    assert n - 1 !in prev;
    assert MissingAt(templateBadges, readmeBadges) ==
      if Last(templateBadges) in readmeBadges then prev else prev + {n - 1};
  }

  /** When the README has every template badge, no badge note is written. */
  lemma AllBadgesPresent(templateBadges: seq<string>, readmeBadges: seq<string>)
    requires forall i :: 0 <= i < |templateBadges| ==> templateBadges[i] in readmeBadges
    ensures MissingBadgeNote !in BadgeLoop(templateBadges, readmeBadges)
  {
    BadgeLoopSpec(templateBadges, readmeBadges);
    assert MissingAt(templateBadges, readmeBadges) == {};
  }

  // ---------------------------------------------------------------------
  // Sections

  /** The section's heading comes first; a missing section gets the
      missing-section note and the template's text; an existing one gets
      the README's text, after a review note exactly when the joined texts
      differ. The two notes never meet. */
  lemma SectionNotes(name: string, templateContent: seq<string>, readmeSections: map<string, seq<string>>)
    ensures SectionPieces(name, templateContent, readmeSections)[0] == SectionHeading(name)
    ensures MissingSectionNote in SectionPieces(name, templateContent, readmeSections) <==>
      name !in readmeSections
    ensures ReviewNote in SectionPieces(name, templateContent, readmeSections) <==>
      name in readmeSections && Join(templateContent, "\n") != Join(readmeSections[name], "\n")
    ensures Last(SectionPieces(name, templateContent, readmeSections)) ==
      SectionText(if name in readmeSections then readmeSections[name] else templateContent)
  {
  }

  /** Read back from one section's pieces: its heading once, no badge. */
  lemma SectionPiecesReadBack(name: string, templateContent: seq<string>, readmeSections: map<string, seq<string>>)
    ensures SectionsWritten(SectionPieces(name, templateContent, readmeSections)) == [name]
    ensures BadgesWritten(SectionPieces(name, templateContent, readmeSections)) == []
  {
    var ps := SectionPieces(name, templateContent, readmeSections);
    var h := [SectionHeading(name)];
    var rest := ps[1..];
    assert ps == h + rest;
    ReadBackOne(SectionHeading(name));
    SectionsWrittenAppend(h, rest);
    BadgesWrittenAppend(h, rest);
    ReadBackOne(Last(ps));
    if |rest| == 2 {
      assert rest == [rest[0]] + [rest[1]];
      ReadBackOne(rest[0]);
      SectionsWrittenAppend([rest[0]], [rest[1]]);
      BadgesWrittenAppend([rest[0]], [rest[1]]);
    } else {
      assert rest == [Last(ps)];
    }
  }

  /** The text written for one template section: its heading line, the
      note if any, then its kept text and a blank line, and nothing else. */
  lemma SectionOutput(name: string, templateContent: seq<string>, readmeSections: map<string, seq<string>>)
    ensures Output(SectionPieces(name, templateContent, readmeSections)) ==
      "## " + name + "\n" +
      (if name !in readmeSections then MissingSectionComment
       else if Join(templateContent, "\n") != Join(readmeSections[name], "\n") then ReviewComment
       else "") +
      Join(if name in readmeSections then readmeSections[name] else templateContent, "\n") + "\n\n"
  {
    var ps := SectionPieces(name, templateContent, readmeSections);
    var h := SectionHeading(name);
    var text := "## " + name + "\n";
    assert PieceText(h) == text;
    if name !in readmeSections {
      var t := SectionText(templateContent);
      assert ps == [h, MissingSectionNote, t];
      OutputThree(h, MissingSectionNote, t);
    } else if Join(templateContent, "\n") != Join(readmeSections[name], "\n") {
      var t := SectionText(readmeSections[name]);
      assert ps == [h, ReviewNote, t];
      OutputThree(h, ReviewNote, t);
    } else {
      var t := SectionText(readmeSections[name]);
      assert ps == [h, t];
      OutputTwo(h, t);
    }
  }

  lemma OutputTwo(x: Piece, y: Piece)
    ensures Output([x, y]) == PieceText(x) + PieceText(y)
  {
    assert [x, y][..1] == [x];
    ReadBackOne(x);
  }

  lemma OutputThree(x: Piece, y: Piece, z: Piece)
    ensures Output([x, y, z]) == PieceText(x) + PieceText(y) + PieceText(z)
  {
    assert [x, y, z][..2] == [x, y];
    OutputTwo(x, y);
  }

  /** The text a template section keeps in the improved README: the
      README's when it has the section, else the template's. */
  function KeptText(name: string, templateSections: map<string, seq<string>>, readmeSections: map<string, seq<string>>): seq<string>
    requires name in templateSections
  {
    if name in readmeSections then readmeSections[name] else templateSections[name]
  }

  /** Notes left out, one section reads back as its heading and its text. */
  lemma SectionPiecesOutline(name: string, templateContent: seq<string>, readmeSections: map<string, seq<string>>)
    ensures Outline(SectionPieces(name, templateContent, readmeSections)) ==
      [SectionHeading(name), SectionText(if name in readmeSections then readmeSections[name] else templateContent)]
  {
    var ps := SectionPieces(name, templateContent, readmeSections);
    var h, t := SectionHeading(name), Last(ps);
    var mid := ps[1..|ps| - 1];
    assert Outline(ps) == Outline([h]) + Outline(mid) + Outline([t]) by {
      assert ps == [h] + mid + [t];
      OutlineAppend([h], mid);
      OutlineAppend([h] + mid, [t]);
    }
    assert Outline([h]) == [h] && Outline([t]) == [t] by {
      assert [h][..0] == [] && [t][..0] == [];
    }
    assert Outline(mid) == [] by {
      if |mid| == 1 {
        assert mid[..0] == [];
      }
    }
  }

  /** Template section names the README lacks. */
  function MissingNames(order: seq<string>, readmeSections: map<string, seq<string>>): set<string> {
    set k | k in order && k !in readmeSections
  }

  /** Template section names whose joined text differs from the README's. */
  function ChangedNames(order: seq<string>, templateSections: map<string, seq<string>>, readmeSections: map<string, seq<string>>): set<string> {
    set k | k in order && k in templateSections && k in readmeSections &&
      Join(templateSections[k], "\n") != Join(readmeSections[k], "\n")
  }

  /** Counting step of the section loop for missing sections. */
  lemma MissingNamesStep(order: seq<string>, templateSections: map<string, seq<string>>, readmeSections: map<string, seq<string>>)
    requires |order| > 0 && Last(order) in templateSections
    requires Last(order) !in order[..|order| - 1]
    ensures var k := Last(order);
      |MissingNames(order, readmeSections)| == |MissingNames(order[..|order| - 1], readmeSections)| +
        multiset(SectionPieces(k, templateSections[k], readmeSections))[MissingSectionNote]
  {
    var k := Last(order);
    var m := MissingNames(order[..|order| - 1], readmeSections);
    assert MissingNames(order, readmeSections) == if k in readmeSections then m else m + {k} by {
      SplitLast(order);
    }
    assert k !in m;
    SectionNoteCounts(k, templateSections[k], readmeSections);
  }

  /** Counting step of the section loop for changed sections. */
  lemma ChangedNamesStep(order: seq<string>, templateSections: map<string, seq<string>>, readmeSections: map<string, seq<string>>)
    requires |order| > 0 && Last(order) in templateSections
    requires Last(order) !in order[..|order| - 1]
    ensures var k := Last(order);
      |ChangedNames(order, templateSections, readmeSections)| ==
        |ChangedNames(order[..|order| - 1], templateSections, readmeSections)| +
        multiset(SectionPieces(k, templateSections[k], readmeSections))[ReviewNote]
  {
    var k := Last(order);
    var c := ChangedNames(order[..|order| - 1], templateSections, readmeSections);
    assert ChangedNames(order, templateSections, readmeSections) ==
      if k in readmeSections && Join(templateSections[k], "\n") != Join(readmeSections[k], "\n") then c + {k} else c
    by {
      SplitLast(order);
    }
    assert k !in c;
    SectionNoteCounts(k, templateSections[k], readmeSections);
  }

  /** How many notes one section's pieces hold. */
  lemma SectionNoteCounts(name: string, templateContent: seq<string>, readmeSections: map<string, seq<string>>)
    ensures multiset(SectionPieces(name, templateContent, readmeSections))[MissingSectionNote] ==
      if name in readmeSections then 0 else 1
    ensures multiset(SectionPieces(name, templateContent, readmeSections))[ReviewNote] ==
      if name in readmeSections && Join(templateContent, "\n") != Join(readmeSections[name], "\n") then 1 else 0
  {
  }

  /** Without repeated names, the last name is not among the others. */
  lemma LastIsNew(order: seq<string>)
    requires |order| > 0 && Distinct(order)
    ensures Last(order) !in order[..|order| - 1]
    ensures Distinct(order[..|order| - 1])
  {
    var init := order[..|order| - 1];
    forall i | 0 <= i < |init| ensures init[i] != Last(order) {
      assert init[i] == order[i];
    }
  }

  /** Every section is written under its heading, in the order ranged
      over, and no badge line comes from the section loop. */
  lemma {:induction false} SectionLoopReadBack(order: seq<string>, templateSections: map<string, seq<string>>, readmeSections: map<string, seq<string>>)
    requires forall i :: 0 <= i < |order| ==> order[i] in templateSections
    ensures SectionsWritten(SectionLoop(order, templateSections, readmeSections)) == order
    ensures BadgesWritten(SectionLoop(order, templateSections, readmeSections)) == []
    ensures var out := Outline(SectionLoop(order, templateSections, readmeSections));
      |out| == 2 * |order| &&
      forall i :: 0 <= i < |order| ==>
        out[2 * i] == SectionHeading(order[i]) &&
        out[2 * i + 1] == SectionText(KeptText(order[i], templateSections, readmeSections))
  {
    SectionLoopOutline(order, templateSections, readmeSections);
    var n := |order|;
    if n > 0 {
      var init := order[..n - 1];
      var k := Last(order);
      var prev := SectionLoop(init, templateSections, readmeSections);
      var ps := SectionPieces(k, templateSections[k], readmeSections);
      assert SectionLoop(order, templateSections, readmeSections) == prev + ps;
      SectionLoopReadBack(init, templateSections, readmeSections);
      SectionsWrittenAppend(prev, ps);
      BadgesWrittenAppend(prev, ps);
      SectionPiecesReadBack(k, templateSections[k], readmeSections);
      SplitLast(order);
    }
  }

  /** Notes left out, the i-th section written is the i-th name ranged
      over, followed by the text it keeps. */
  lemma {:induction false} SectionLoopOutline(order: seq<string>, templateSections: map<string, seq<string>>, readmeSections: map<string, seq<string>>)
    requires forall i :: 0 <= i < |order| ==> order[i] in templateSections
    ensures var out := Outline(SectionLoop(order, templateSections, readmeSections));
      |out| == 2 * |order| &&
      forall i :: 0 <= i < |order| ==>
        out[2 * i] == SectionHeading(order[i]) &&
        out[2 * i + 1] == SectionText(KeptText(order[i], templateSections, readmeSections))
  {
    var n := |order|;
    if n > 0 {
      var init := order[..n - 1];
      var k := Last(order);
      var prev := SectionLoop(init, templateSections, readmeSections);
      var ps := SectionPieces(k, templateSections[k], readmeSections);
      assert SectionLoop(order, templateSections, readmeSections) == prev + ps;
      SectionLoopOutline(init, templateSections, readmeSections);
      OutlineAppend(prev, ps);
      SectionPiecesOutline(k, templateSections[k], readmeSections);
      var out := Outline(prev + ps);
      assert out == Outline(prev) + [SectionHeading(k), SectionText(KeptText(k, templateSections, readmeSections))];
      forall i | 0 <= i < n
        ensures out[2 * i] == SectionHeading(order[i])
        ensures out[2 * i + 1] == SectionText(KeptText(order[i], templateSections, readmeSections))
      {
        if i < n - 1 {
          assert order[i] == init[i];
        }
      }
    }
  }

  /** The section loop writes no missing-badge note. */
  lemma {:induction false} SectionLoopNoBadgeNote(order: seq<string>, templateSections: map<string, seq<string>>, readmeSections: map<string, seq<string>>)
    requires forall i :: 0 <= i < |order| ==> order[i] in templateSections
    ensures MissingBadgeNote !in SectionLoop(order, templateSections, readmeSections)
  {
    if |order| > 0 {
      SectionLoopNoBadgeNote(order[..|order| - 1], templateSections, readmeSections);
    }
  }

  /** One missing-section note per section the README lacks and one
      review note per section whose text differs. */
  lemma {:induction false} SectionLoopCounts(order: seq<string>, templateSections: map<string, seq<string>>, readmeSections: map<string, seq<string>>)
    requires forall i :: 0 <= i < |order| ==> order[i] in templateSections
    requires Distinct(order)
    ensures multiset(SectionLoop(order, templateSections, readmeSections))[MissingSectionNote] ==
      |MissingNames(order, readmeSections)|
    ensures multiset(SectionLoop(order, templateSections, readmeSections))[ReviewNote] ==
      |ChangedNames(order, templateSections, readmeSections)|
  {
    var n := |order|;
    if n > 0 {
      LastIsNew(order);
      SectionLoopCounts(order[..n - 1], templateSections, readmeSections);
      MissingNamesStep(order, templateSections, readmeSections);
      ChangedNamesStep(order, templateSections, readmeSections);
    }
  }

  // ---------------------------------------------------------------------
  // The whole improved README

  /** The improved README lists the template's badges, then one blank
      line, then every template section once, in the order ranged over. */
  lemma ImproveReadBack(template: Readme, readme: Readme, order: seq<string>)
    requires ListsKeys(order, template.sections)
    ensures BadgesWritten(Improve(template, readme, order)) == template.badges
    ensures SectionsWritten(Improve(template, readme, order)) == order
    ensures Improve(template, readme, order)[|BadgeLoop(template.badges, readme.badges)|] == BadgesEnd
    ensures var ps := Improve(template, readme, order);
      var n := |BadgeLoop(template.badges, readme.badges)|;
      n < |ps| &&
      BadgesWritten(ps[..n]) == template.badges && SectionsWritten(ps[..n]) == [] &&
      ps[n] == BadgesEnd &&
      SectionsWritten(ps[n + 1..]) == order && BadgesWritten(ps[n + 1..]) == []
  {
    var b := BadgeLoop(template.badges, readme.badges);
    var s := SectionLoop(order, template.sections, readme.sections);
    assert Improve(template, readme, order) == b + [BadgesEnd] + s;
    assert BadgesWritten(b) == template.badges && SectionsWritten(b) == [] by {
      BadgeLoopSpec(template.badges, readme.badges);
    }
    assert SectionsWritten(s) == order && BadgesWritten(s) == [] by {
      SectionLoopReadBack(order, template.sections, readme.sections);
    }
    AroundBadgesEnd(b, s);
    SplitAround(b, BadgesEnd, s);
  }

  /** Pieces written around the blank line that ends the badges. */
  lemma AroundBadgesEnd(b: seq<Piece>, s: seq<Piece>)
    ensures BadgesWritten(b + [BadgesEnd] + s) == BadgesWritten(b) + BadgesWritten(s)
    ensures SectionsWritten(b + [BadgesEnd] + s) == SectionsWritten(b) + SectionsWritten(s)
  {
    var e := [BadgesEnd];
    assert BadgesWritten(e) == [] && SectionsWritten(e) == [] by {
      ReadBackOne(BadgesEnd);
    }
    assert BadgesWritten(b + e + s) == BadgesWritten(b) + BadgesWritten(s) by {
      BadgesWrittenAppend(b, e);
      BadgesWrittenAppend(b + e, s);
    }
    assert SectionsWritten(b + e + s) == SectionsWritten(b) + SectionsWritten(s) by {
      SectionsWrittenAppend(b, e);
      SectionsWrittenAppend(b + e, s);
    }
  }

  /** Slicing a sequence back around one element. */
  lemma SplitAround<T>(a: seq<T>, x: T, c: seq<T>)
    ensures (a + [x] + c)[..|a|] == a
    ensures (a + [x] + c)[|a|] == x
    ensures (a + [x] + c)[|a| + 1..] == c
  {
  }

  /** The names ranged over that the README lacks are the template's
      section names that are not the README's. */
  lemma MissingNamesAreKeys(order: seq<string>, templateSections: map<string, seq<string>>, readmeSections: map<string, seq<string>>)
    requires ListsKeys(order, templateSections)
    ensures MissingNames(order, readmeSections) == templateSections.Keys - readmeSections.Keys
  {
  }

  /** One missing-badge note per template badge the README lacks, one
      missing-section note per template section it lacks, one review note
      per section whose text differs. */
  lemma ImproveCounts(template: Readme, readme: Readme, order: seq<string>)
    requires ListsKeys(order, template.sections)
    ensures multiset(Improve(template, readme, order))[MissingBadgeNote] ==
      |MissingAt(template.badges, readme.badges)|
    ensures multiset(Improve(template, readme, order))[MissingSectionNote] ==
      |template.sections.Keys - readme.sections.Keys|
    ensures multiset(Improve(template, readme, order))[ReviewNote] ==
      |ChangedNames(order, template.sections, readme.sections)|
  {
    ImproveBadgeNotes(template, readme, order);
    ImproveSectionNotes(template, readme, order);
    ImproveReviewNotes(template, readme, order);
  }

  lemma ImproveBadgeNotes(template: Readme, readme: Readme, order: seq<string>)
    requires ListsKeys(order, template.sections)
    ensures multiset(Improve(template, readme, order))[MissingBadgeNote] ==
      |MissingAt(template.badges, readme.badges)|
  {
    var b := BadgeLoop(template.badges, readme.badges);
    var s := SectionLoop(order, template.sections, readme.sections);
    BadgeLoopSpec(template.badges, readme.badges);
    SectionLoopNoBadgeNote(order, template.sections, readme.sections);
    CountAcross(b, BadgesEnd, s, MissingBadgeNote);
  }

  lemma ImproveSectionNotes(template: Readme, readme: Readme, order: seq<string>)
    requires ListsKeys(order, template.sections)
    ensures multiset(Improve(template, readme, order))[MissingSectionNote] ==
      |template.sections.Keys - readme.sections.Keys|
  {
    var b := BadgeLoop(template.badges, readme.badges);
    var s := SectionLoop(order, template.sections, readme.sections);
    BadgeLoopSpec(template.badges, readme.badges);
    SectionLoopCounts(order, template.sections, readme.sections);
    MissingNamesAreKeys(order, template.sections, readme.sections);
    CountAcross(b, BadgesEnd, s, MissingSectionNote);
  }

  lemma ImproveReviewNotes(template: Readme, readme: Readme, order: seq<string>)
    requires ListsKeys(order, template.sections)
    ensures multiset(Improve(template, readme, order))[ReviewNote] ==
      |ChangedNames(order, template.sections, readme.sections)|
  {
    var b := BadgeLoop(template.badges, readme.badges);
    var s := SectionLoop(order, template.sections, readme.sections);
    BadgeLoopSpec(template.badges, readme.badges);
    SectionLoopCounts(order, template.sections, readme.sections);
    CountAcross(b, BadgesEnd, s, ReviewNote);
  }

  lemma CountAcross(a: seq<Piece>, x: Piece, c: seq<Piece>, p: Piece)
    requires x != p
    ensures multiset(a + [x] + c)[p] == multiset(a)[p] + multiset(c)[p]
  {
  }

  /** A README that has every template badge and every template section
      with the same text gets no note at all. */
  lemma MatchingReadmeNoNotes(template: Readme, readme: Readme, order: seq<string>)
    requires ListsKeys(order, template.sections)
    requires forall i :: 0 <= i < |template.badges| ==> template.badges[i] in readme.badges
    requires forall k :: k in template.sections ==>
      k in readme.sections && Join(template.sections[k], "\n") == Join(readme.sections[k], "\n")
    ensures MissingBadgeNote !in Improve(template, readme, order)
    ensures MissingSectionNote !in Improve(template, readme, order)
    ensures ReviewNote !in Improve(template, readme, order)
  {
    ImproveCounts(template, readme, order);
    assert MissingAt(template.badges, readme.badges) == {};
    assert template.sections.Keys - readme.sections.Keys == {};
    assert ChangedNames(order, template.sections, readme.sections) == {};
  }

  /** An empty template yields a single blank line, whatever the README. */
  lemma EmptyTemplate(readmeLines: seq<string>)
    ensures ImprovedReadme([], readmeLines, []) == "\n"
  {
    assert Improve(ParseFile([]), ParseFile(readmeLines), []) == [BadgesEnd];
    ReadBackOne(BadgesEnd);
  }

  /** Comparing joined texts cannot tell an empty section from one holding
      a single empty line: no review note, although the line lists differ. */
  lemma EmptyLineSectionNotReviewed(name: string)
    ensures ReviewNote !in SectionPieces(name, [], map[name := [""]])
  {
  }
}
