# greadme and gmdtree in Dafny

A model of the two line-oriented Markdown readers of the greadme
repository, with the properties their code promises.

- **gmdtree** turns a Markdown document into a heading tree. The model
  covers `ParseMarkdown` and `FindParent` of `gmdtree/gmdtree.go`.
  - A fenced-code flag toggles on every fence line, and lines inside a
    fence are stored verbatim.
  - Headings become nodes, attached to the parent that `FindParent` picks.
  - List items are stored as they are; an inline-code line keeps
    `"Code: "` and the code.
  - Every other line goes to the current node.
  - `PrintMarkdownTree` is a pure function from a tree to the lines it
    prints.
- **greadme** compares a README against a template. The model covers
  `parseFile`, `contains` and `compareAndGenerateImprovedReadme` of
  `greadme.go`.
  - `parseFile` collects the badge lines and, per section heading, the
    lines that follow it.
  - The comparison writes the template's badges, with a note before each
    missing one.
  - Then it writes every template section: the README's text when the
    README has the section, with a review note when the texts differ;
    otherwise a missing-section note and the template's text.

## Modelling choices

- A file is given as its sequence of lines (`seq<string>`).
- Each regular expression is written as an explicit matcher over
  characters, together with a declarative reading of the pattern under
  Go's RE2 semantics:
  - `\s` is tab, newline, form feed, carriage return or space.
  - `.` is any character except a newline.
  - Captures are chosen leftmost-first.
- Go's tree of pointers becomes an immutable `MarkdownNode`.
  - `currentNode` is a path of child indices from the root.
  - The parse keeps this path equal to the tree's right spine.
- The improved README is the sequence of `Piece`s written into the string
  builder. `Output` gives its text.
- Go's iteration order over the template's section map is not fixed, so it
  is a parameter `order`. `ListsKeys` requires it to list every key
  exactly once.
- The source's `FindParent` does not nest headings under the nearest open
  heading of smaller level. The model follows the code and proves how it
  differs, under Findings below. The parse is parametrised by the nesting
  rule, and `ParseMarkdownNested` is the corrected parse.

## Model

| member | source | states |
|---|---|---|
| GmdPatterns.MatchTitleSpec | gmdtree/gmdtree.go:20 | A line is a heading exactly when some split into 1–6 hashes, whitespace and a non-empty newline-free rest exists. The level is the hash count. The title is the text after the last possible whitespace split, which is RE2's leftmost-first choice. |
| GmdPatterns.IsListItemSpec | gmdtree/gmdtree.go:21 | An unordered list item is exactly a line of leading whitespace, one of `-*+`, a space, and a non-empty newline-free rest. |
| GmdPatterns.IsOrderedListItemSpec | gmdtree/gmdtree.go:22 | An ordered list item is exactly a line of leading whitespace, one or more digits, a dot, whitespace, and a non-empty newline-free rest. |
| GmdPatterns.FirstInlineCodeSpec | gmdtree/gmdtree.go:24 | There is an inline-code capture exactly when the line holds a backtick span with non-empty, backtick-free inside. The capture is the inside of the leftmost such span. |
| GmdParse.ClassifySpec | gmdtree/gmdtree.go:44-84 | Each line kind holds exactly when its pattern matches and no earlier check does, in the source's order: fence, inside a fence (kept as code), heading, unordered or ordered list item, inline code, anything else. A heading carries the split Go reports. Inline code carries the inside of the leftmost backtick span. |
| GmdParse.ListLineKeptVerbatim | gmdtree/gmdtree.go:69-79 | Outside a fence, a list line is never a fence or a heading. It is appended verbatim to the current node, even when it also holds a backtick span. |
| GmdTree.FindParent | gmdtree/gmdtree.go:91-101 | The parent lies on the right spine. A non-root answer has a level below the target, and every spine node above it has a level at or above the target. The root is returned only when no spine node below it has a smaller level. |
| GmdTree.InsertOnSpineEndsSpine | gmdtree/gmdtree.go:63-65 | Attaching the new heading to a spine node makes that node the new end of the right spine, which is where `currentNode` then points. |
| GmdTree.InsertKeepsOrdered | gmdtree/gmdtree.go:60-64 | A leaf whose level exceeds its parent's keeps every child's level above its parent's. |
| GmdParse.ParseMarkdown | gmdtree/gmdtree.go:28-88 | The result is a root of level 0 titled "Root", and every child's level exceeds its parent's. |
| GmdParse.ParseMarkdownAccounts | gmdtree/gmdtree.go:44-84 | Under either nesting rule, the tree's headings in document order are the heading lines outside fences. Its stored lines in document order are the lines that are neither fences nor headings outside fences, each in its stored form: verbatim, or `"Code: "` plus the code for an inline-code line. A line-by-line reading without any tree gives the same two lists. |
| GmdParse.StepHeading | gmdtree/gmdtree.go:56-66 | A heading line adds exactly one leaf with the line's level and title. The leaf becomes the last child of the parent that the nesting rule resolves, and it becomes current. Its heading comes last in document order, and no stored line changes. Every node that existed before is still at its old path, with the same level, title and content. Only the parent gains a child. Any node that is not the parent or one of its ancestors is unchanged, subtree and all. |
| GmdParse.StepContent | gmdtree/gmdtree.go:69-84 | A line that is neither a fence nor a heading is appended to the current node. The document's stored lines gain exactly that one line, at the end. The headings and the current node do not change. Lists, plain lines and fenced lines are kept verbatim; inline code is kept as `"Code: "` plus the code. Every node keeps its path, level, title and number of children. Only the current node's content changes. Any node that is not the current node or one of its ancestors is unchanged, subtree and all. |
| GmdParse.StepFence | gmdtree/gmdtree.go:44-47 | A fence line flips the code-block flag and changes nothing else: the tree and the current node stay as they were. |
| GmdParse.StepInFence | gmdtree/gmdtree.go:50-53 | Inside a fence, a non-fence line only appends itself to the current node. |
| GmdParse.InsideFenceVerbatim | gmdtree/gmdtree.go:50-53 | Inside a fence, every line up to the next fence goes verbatim to the current node. No heading is recognised, and the flag stays set. |
| GmdParse.FlagAfterParity | gmdtree/gmdtree.go:44-47 | After a run of lines, the code-block flag has flipped once per fence line. |
| GmdParse.UnclosedFence | gmdtree/gmdtree.go:44-53 | After an odd number of fences, no later heading is recognised and every later line is stored verbatim. |
| GmdParse.NoHeadingsRootOnly | gmdtree/gmdtree.go:35-37 | A document with no heading outside fences yields the bare root, holding every stored line. |
| GmdParse.ParseMarkdownNested | gmdtree/gmdtree.go:28-88 | The corrected parse also yields an ordered tree rooted at level 0 "Root". |
| GmdTree.FindParentShallow | gmdtree/gmdtree.go:91-101 | In an ordered tree, the walk as written never returns a node deeper than the root's children. |
| GmdTree.FindParentSkipsNearer | gmdtree/gmdtree.go:93-97 | Under Root→H1→H2, a new H3 goes under the H1 as written, but under the H2 by the nearest rule. |
| GmdParse.ParseMarkdownSkipsNearer | gmdtree/gmdtree.go:56-66 | Parsing `# A`, `## B`, `### C` yields Root → A, where A has the two children B and C. |
| GmdParse.ParseMarkdownNestedNests | gmdtree/gmdtree.go:56-66 | With the corrected rule the same lines yield Root → A → B → C. |
| GmdParse.ParseMarkdownHeight | gmdtree/gmdtree.go:60-64 | However deep the document's headings go, the tree that is built as written is at most two levels below the root. |
| GmdTree.NearestIsDeepestSmaller | gmdtree/gmdtree.go:91-101 | The corrected parent is the deepest spine node of smaller level; no node below it on the spine qualifies. |
| GmdRender.RenderLength | gmdtree/gmdtree.go:104-112 | The printout has one line for the node, one per heading below it, and one per stored content line. |
| GmdRender.RenderIndented | gmdtree/gmdtree.go:104-112 | Every line printed for a subtree starts with the indentation it was printed at. Every line after the node's header and content lines starts with two more spaces. |
| GmdRender.RenderPreorder | gmdtree/gmdtree.go:104-112 | The printed lines are, node by node in pre-order, each node's header line and then its content lines. Each node is indented two spaces per level below the node printing started at. The nodes after the first are met in the order of the tree's headings, and their content, taken in turn, is the tree's stored lines in document order. |
| GmdRender.RenderOpensWithNode | gmdtree/gmdtree.go:105-108 | The node's header line comes first, followed by its content lines in order as `indent  * line`. |
| GmdRender.HeaderLevelReadsBack | gmdtree/gmdtree.go:105 | The level printed in a header is a digit string whose decimal value is the node's level. |
| GmdRender.PrintedDocumentLength | gmdtree/gmdtree.go:104-112 | Printing a parsed document prints 1 + (headings outside fences) + (stored lines) lines. |
| ReadmePatterns.ReadmeTitleSpec | greadme.go:14 | A line is a section heading exactly when one or more hashes are followed by whitespace. The name is what follows the whole whitespace run, up to the first newline, and may be empty. |
| ReadmePatterns.BlankHeadingNamesEmpty | greadme.go:14 | Hashes followed only by whitespace form a heading with the empty name. |
| ReadmePatterns.IsBadgeSpec | greadme.go:15 | A line is a badge exactly when it contains `![` at some `a`, then `](https://img.shields.io` at some `b`, then `)` at some `c`, with no newline between them. |
| ReadmePatterns.BadgeInContext | greadme.go:15 | The badge pattern is unanchored: text around a badge line keeps it a badge. |
| ReadmeParse.BadgesAreBadgeLines | greadme.go:33-36 | The badges collected are exactly the input lines that match the badge pattern. |
| ReadmeParse.BadgesInOrder | greadme.go:33-36 | Badges are kept in file order: the badges of `a + b` are those of `a` followed by those of `b`. |
| ReadmeParse.OneLineBadge | greadme.go:34-35 | A single line is recorded as one badge exactly when the pattern occurs in it, whether or not it is also a heading. |
| ReadmeParse.SectionNames | greadme.go:39-41 | A name is a section exactly when some line is a heading with that name. |
| ReadmeParse.SectionLinesFromFile | greadme.go:39-44 | Every stored section line is a non-heading line of the file. The empty-named section, if any, is empty. |
| ReadmeParse.SectionBody | greadme.go:39-44 | A named section holds exactly the lines between its last heading and the next heading or the end of the file. |
| ReadmeParse.NoHeadingsNoSections | greadme.go:42 | A file without headings has no sections. |
| ReadmeParse.LeadingLinesDropped | greadme.go:42 | Lines before the first heading belong to no section. |
| ReadmeParse.EmptyHeadingSwallows | greadme.go:40-42 | Non-heading lines after a heading with an empty name are dropped. |
| ReadmeParse.BodyAppends | greadme.go:42-43 | While a named section is current, non-heading lines are appended to it and to nothing else. |
| ReadmeParse.OtherSectionsKeep | greadme.go:39-44 | A section that is not current, and whose name no later heading repeats, keeps its lines. |
| ReadmeCompare.Contains | greadme.go:109-116 | The result is true exactly when the item is among the slice. |
| ReadmeCompare.BadgeNoteIffMissing | greadme.go:70-77 | A template badge is written once, as the last piece, and no section is written. A missing-badge note comes before it exactly when the README lacks it. |
| ReadmeCompare.BadgeText | greadme.go:71-75 | The text written for one template badge: the badge line, preceded by the missing-badge comment when the README lacks it. |
| ReadmeCompare.BadgeLoopSpec | greadme.go:70-77 | The badge loop writes the template's badges in template order, with one note per template badge the README lacks, and writes no section. |
| ReadmeCompare.AllBadgesPresent | greadme.go:71-72 | When the README has every template badge, no badge note is written. |
| ReadmeCompare.SectionNotes | greadme.go:83-95 | The heading comes first. The missing-section note appears exactly when the README lacks the section. The review note appears exactly when the README has it and the joined texts differ. The text written is the README's if present, else the template's. |
| ReadmeCompare.SectionOutput | greadme.go:83-94 | The text written for one section is exactly `## name`, then the missing-section comment if the README lacks the section, or the review comment if the joined texts differ, then the kept text joined by newlines and a blank line. |
| ReadmeCompare.SectionLoopReadBack | greadme.go:82-96 | Every template section is written under its heading once, in the order ranged over, and the section loop writes no badge. With the notes left out, the i-th heading written is the i-th name ranged over. The text right after it is the README's text for that section if the README has it, else the template's. |
| ReadmeCompare.SectionLoopOutline | greadme.go:82-96 | With the notes left out, the section loop writes exactly one heading and one text per name ranged over, in that order. Each text is the README's for that section if present, else the template's. |
| ReadmeCompare.SectionLoopCounts | greadme.go:82-96 | One missing-section note per section the README lacks, and one review note per section whose text differs. |
| ReadmeCompare.ImproveReadBack | greadme.go:70-96 | The improved README lists the template's badges, then the blank line, then every template section once. Before the blank line come all the badges and no section. After it come all the sections, in the order ranged over, and no badge. |
| ReadmeCompare.ImproveCounts | greadme.go:70-96 | Badge notes are one per missing template badge. Section notes are one per name in the template's keys but not the README's. Review notes are one per differing section. |
| ReadmeCompare.MatchingReadmeNoNotes | greadme.go:70-96 | A README with every template badge and every template section, with equal text, gets no note. |
| ReadmeCompare.EmptyTemplate | greadme.go:78 | An empty template yields a single blank line, whatever the README. |
| ReadmeCompare.EmptyLineSectionNotReviewed | greadme.go:86 | Comparing joined texts cannot tell an empty section from one holding a single empty line, so no review note is written. |

## Left out

- Opening, reading and writing files are not modelled: `os.Open`, `bufio.Scanner`, `scanner.Err` and `os.WriteFile`. A file is its lines.
  - The scanner's 64 KiB line limit is not modelled.
  - Nor is its removal of a trailing `\r` modelled.
- Console output (`fmt.Println` / `fmt.Printf`) is not modelled. The progress and "missing" messages of `compareAndGenerateImprovedReadme` have no effect on the result.
- `PrintMarkdownTree` is modelled as the list of lines it prints, not as writes to standard output.
- The error returns of `ParseMarkdown` and `parseFile` come only from I/O, so the model has none.
- The order of Go's map iteration is a parameter: any order that lists each key once.
- The missing-badge comment and its badge are one `WriteString` in the source and two pieces here. The text written is the same (see BadgeText).
- The cobra command line (`main` in greadme.go) is not modelled, nor are `readme_tmpl.go` and `ref_readme.go`, which only hold templates and reference text.
- The regular expression engine is not modelled. Only the seven patterns used are, as matchers.
- Heading nesting: a heading is meant to nest under the nearest open heading of smaller level. The code does not do this, and the model follows the code (see Findings).

## Findings

| source | as written | input that shows it | evidently intended | confidence | as-written member | corrected member |
|---|---|---|---|---|---|---|
| gmdtree/gmdtree.go:91-101 | `FindParent` returns the first node on the right spine whose level is below the new heading's, i.e. the shallowest. In an ordered tree that is never deeper than a child of the root. | the lines `# A`, `## B`, `### C`: `C` is attached to `A` as a sibling of `B` | `C` nested under `B`, the nearest open heading of smaller level | not executed | GmdParse.ParseMarkdownSkipsNearer | GmdTree.NearestIsDeepestSmaller |
