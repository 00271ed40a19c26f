# Comment annotator — a Dafny model

This project models the comment annotator of `src/comment.cpp`. The annotator
reads the raw text of a script and attaches customizer metadata to every
literal assignment in it:

- **Parameter**: the trailing `// ...` comment on the assignment's line, as
  the expression parser reads it (`getComment`).
- **Description**: the `//` comment line directly above the assignment
  (`getDescription`).
- **Group**: the label of the last `/* [Group] */` heading whose recorded
  line is earlier than the assignment's line (`collectGroups` plus the
  lookup loop in `CommentParser::addParameter`). The recorded line does not
  count newlines inside block comments, so it can be smaller than the line
  the heading sits on.

The text is a `string`: the NUL-free C string `std::string(fulltext)` builds
from the `const char *` argument. `AddParameter` applies `UpToNul` to its
text once, so anything after a NUL is ignored as in the C++.

Every scanner is a pure recursive function over an index and follows the C++
loop it models branch by branch. When a terminator is missing, the C++ code
either reads past the end of its buffer (undefined behaviour) or throws: for
an unclosed `/*`, the loop at line 128 reads the terminating `'\0'` at
`fulltext[length]` and then calls `compare(length + 1, 2, "*/")`, which throws
`std::out_of_range`. Each of these is a precondition here, never an invented
"empty" result:

- `CommentDefined`: a newline ends the line `getComment` cuts out.
- `DescriptionDefined`: a newline ends a description line.
- `ScanDefined`: every `//` the group pass reaches ends with a newline, and
  every `/*` it opens is closed. It rules out both the read past the end and
  the `std::out_of_range` exception. A stretch without any `/` is always
  defined.

`ClosedComments` is a simpler condition, and it is proved sufficient for
`ScanDefined`.

Files and modules:

- `text.dfy` (`Text`): counting a character, two-character markers, and the
  search for the next newline or marker.
- `comment_locator.dfy` (`CommentLocator`): `getComment`, plus a
  declarative description of its split point.
- `description.dfy` (`DescriptionExtractor`): `getDescription`.
- `groups.dfy` (`GroupCollector`): `GroupInfo` and `collectGroups`, plus a
  declarative description of a label as its joined `[...]` segments.
- `headings.dfy` (`GroupHeadings`): which block comments `collectGroups`
  records, and on which line.
- `annotator.dfy` (`Annotator`): the group lookup and the per-assignment
  annotation loop of `addParameter`.
- `scenarios.dfy` (`Scenarios`): concrete inputs for the edge cases listed
  below.

Behaviour kept literally from the code:

- **Where the line starts.** For line 2 or later, `getComment` starts its
  segment at the newline before the line; for line 1 it starts at index 0.
  `getDescription` starts just past that newline.
- **Line 1 after a leading newline.** `getComment` searches for the end of
  the segment from one past its start. For a text that starts with `\n`,
  the segment of line 1 therefore runs on to the end of line 2, and line 1
  gets line 2's comment (`Scenarios.FirstLineRunsIntoSecond`).
- **Quote parity.** `getComment` toggles its quote flag before testing a
  character. It never examines the last character of the segment, and it
  gives up at a second `;` outside strings.
- **`getDescription`.** It needs `//` at column 0: whitespace before the
  marker is not skipped. It skips spaces and tabs after the marker, and
  turns every later `//` into one space.
- **The group pass, branch order.** The newline test comes first, then the
  quote toggle, then the `//` skip, then the `/*` test. Only the `/*` test
  is gated by the quote flag.
- **The group pass, string literals.** A `"` flips the quote flag (lines
  110-113), so a string literal is entered at its opening quote and left at
  its closing one, and a `/*` inside it opens nothing. The `//` skip is not
  gated by the flag: a `//` inside a string is skipped to the end of its
  line, closing quote included, and the pass stays inside the string
  (`Scenarios.LineCommentInsideString`). A `/` followed by neither `*` nor
  `/`, as in a division, is an ordinary character
  (`Scenarios.DivisionBeforeHeading`).
- **The group pass, after a block comment.** The pass resumes on the `/` of
  the closing `*/`. Newlines inside a block comment are not counted.
- **The group pass, after a `//` comment.** The skip consumes the comment
  and its newline, and the counter moves on by one (line 118), so a line
  ended by a `//` comment counts once. A `/*` inside a `//` comment, even
  one that starts on the comment's second slash, opens nothing
  (`Scenarios.LineCommentHidesBlock`).
- **Group entries.** An entry is pushed for every block comment the pass
  opens, including one without any `[...]` segment, whose label is empty.
  Segments are joined with `-`, except that an empty label so far is not
  followed by a dash.
- **The lookup.** It takes the entry just before the first entry whose
  recorded line is not earlier than the assignment's line.
- **NUL truncation.** The text is read as a C string, so it ends at its
  first NUL. The description and the comment also pass through `c_str()`;
  on a NUL-free text that changes nothing, and the model keeps the call.

## Model

| member | source | states |
|---|---|---|
| `CommentLocator.StartFrom` | src/comment.cpp:24-28 | the line search from index `s` stops at or after `s` and never past the end of the text |
| `CommentLocator.SegmentStart` | src/comment.cpp:23-28 | line 1 starts its segment at index 0; a later line starts at the newline that has exactly line-2 newlines before it, or at the end of a text with too few lines |
| `CommentLocator.SegmentStartAt` | src/comment.cpp:23-28 | converse of the above: a newline with exactly line-2 newlines before it is where the segment of that line starts |
| `CommentLocator.Segment` | src/comment.cpp:30-33 | the segment is the text slice from its start up to the next newline after it, is never empty, is followed by a newline and contains no newline after its first character |
| `CommentLocator.ScanLine` | src/comment.cpp:36-46 | a marker the scan reports really is a `//` in the segment, at or after the scan's starting index |
| `CommentLocator.GetComment` | src/comment.cpp:19-51 | a line number below 1 gives the empty string; the comment never contains a newline |
| `CommentLocator.ScanFindsSplit` | src/comment.cpp:36-46 | the scan reports a marker exactly at the split point: the first `//` at even quote parity, with fewer than two `;` at even parity before it; whenever such a point exists the scan finds it |
| `CommentLocator.GetCommentIsTextAfterSplit` | src/comment.cpp:33-50 | the comment is the rest of the segment after the split point, and it is empty when the segment has no split point; a non-empty comment comes from a split point |
| `CommentLocator.QuotedMarkersIgnored` | src/comment.cpp:39-42 | when every `//` on the line follows an odd number of `"`, no comment is returned |
| `CommentLocator.SecondSemicolonBlocks` | src/comment.cpp:41-44 | a second `;` outside strings that comes before any `//` outside strings makes the result empty |
| `CommentLocator.NoSplitAfterSecondSemicolon` | src/comment.cpp:41-44 | a segment with a second `;` outside strings before any `//` outside strings has no split point at all |
| `CommentLocator.SegmentOfLine` | src/comment.cpp:23-33 | when `before` holds the first line-1 lines, the segment of the line is the newline ending `before` followed by the line's own text |
| `CommentLocator.SegmentOfFirstLine` | src/comment.cpp:23-33 | the segment of line 1 is the first line itself when that line is not empty |
| `CommentLocator.SplitAfterCode` | src/comment.cpp:36-50 | in a later line's segment, after code without quotes, without `//` and with at most one `;`, the `//` that follows the code is the split point and the rest is the comment |
| `CommentLocator.SplitAfterCodeFirst` | src/comment.cpp:36-50 | the same for line 1, whose segment has no leading newline |
| `CommentLocator.SplitAt` | src/comment.cpp:36-46 | a `//` after at most a newline and such code is the first `//` outside strings, with fewer than two `;` before it |
| `CommentLocator.CommentRoundTrip` | src/comment.cpp:19-51 | round trip on any line from 1 on: a line made of such code, `//` and a comment yields exactly that comment |
| `DescriptionExtractor.LineStartFrom` | src/comment.cpp:61-65 | the line search from index `s` stops at or after `s` and never past the end of the text |
| `DescriptionExtractor.LineStart` | src/comment.cpp:61-65 | line 1 starts at index 0; a later line starts just past the newline that has exactly line-2 newlines before it, or at the end of a text with too few lines |
| `DescriptionExtractor.LineStartAt` | src/comment.cpp:61-65 | converse of the above: the index just past a newline that has exactly line-2 newlines before it is the start of the line |
| `DescriptionExtractor.SkipBlanks` | src/comment.cpp:73-74 | stops at the first character from the index on that is neither a space nor a tab, and only blanks lie between |
| `DescriptionExtractor.CopyLine` | src/comment.cpp:75-88 | the copy stops at the newline, contains no `//`, is no longer than the rest of the line, and a `//` at the start becomes a space |
| `DescriptionExtractor.CopyVerbatim` | src/comment.cpp:75-88 | the rest of a line without `//` is copied unchanged |
| `DescriptionExtractor.GetDescription` | src/comment.cpp:57-89 | empty for a line number below 1 and for a line that does not start with `//` at column 0; never contains a newline or `//`; never starts with a tab; starts with a space only when a `//` followed the skipped blanks |
| `DescriptionExtractor.SkipBlanksAt` | src/comment.cpp:73-74 | blank skipping stops exactly at the first non-blank character |
| `DescriptionExtractor.MarkerBecomesSpace` | src/comment.cpp:78-87 | text without `//` up to a `//` is copied unchanged, and the `//` becomes exactly one space before the copy goes on after it |
| `DescriptionExtractor.LineCopied` | src/comment.cpp:78-87 | a line with no `//` is copied unchanged up to its newline |
| `DescriptionExtractor.CopyPieces` | src/comment.cpp:75-88 | a line made of `//`-free pieces joined with `//` is copied as the same pieces joined with single spaces |
| `DescriptionExtractor.SplitAtMarkers` | src/comment.cpp:80-82 | reference definition: cutting a line at each `//` gives `//`-free pieces that join back, with `//`, to the line |
| `DescriptionExtractor.CopyLineSplits` | src/comment.cpp:75-88 | the copy loop equals the rest of the line cut at each `//` and joined with single spaces |
| `DescriptionExtractor.DescriptionIsSpacedLine` | src/comment.cpp:57-89 | a description is the line after `//` and the blanks, cut at each `//` and joined with single spaces |
| `DescriptionExtractor.DescriptionPiecesRoundTrip` | src/comment.cpp:57-89 | round trip: `//`, blanks, then pieces joined with `//` gives back the pieces joined with single spaces |
| `DescriptionExtractor.DescriptionRoundTrip` | src/comment.cpp:57-89 | round trip: `//`, blanks, then a description that has no `//`, no newline and no leading blank, gives back exactly that description |
| `GroupCollector.JoinLabel` | src/comment.cpp:151-155 | adding a segment keeps the label so far as a prefix and the segment as a suffix, puts exactly one character between them when the label so far is non-empty and none when it is empty, and adds no character other than `-` |
| `GroupCollector.LabelFrom` | src/comment.cpp:138-164 | a label assembled from bracket-free parts is bracket-free |
| `GroupCollector.Label` | src/comment.cpp:135-166 | a group label never contains `[` or `]` |
| `GroupCollector.OneSegmentPerBracket` | src/comment.cpp:147-158 | a comment has exactly as many completed segments as it has `]` characters |
| `GroupCollector.PieceScan` | src/comment.cpp:138-164 | scanning a stretch without `]` only adds that stretch's bracketed text to the segment being collected |
| `GroupCollector.ScanToBracket` | src/comment.cpp:147-158 | the first `]` closes one segment and joins it onto the label |
| `GroupCollector.ScanIsJoin` | src/comment.cpp:138-164 | the label loop from any point equals the completed segments after that point joined onto the label so far |
| `GroupCollector.LabelIsJoinedSegments` | src/comment.cpp:135-166 | the label of a comment is its completed `[...]` segments folded in order with `JoinLabel`: a dash goes between segments, except that none follows an empty label so far, so `[][B]` is labelled `B` |
| `GroupCollector.SegmentsIgnoreTail` | src/comment.cpp:138-164 | text after the last `]` adds no segment |
| `GroupCollector.UnterminatedSegmentDropped` | src/comment.cpp:138-166 | an unterminated trailing `[` segment is dropped from the label |
| `GroupCollector.SingleSegmentLabel` | src/comment.cpp:138-166 | a comment `[s]`, with no brackets inside `s`, is labelled `s` |
| `GroupCollector.ScanDefined` | src/comment.cpp:115-131 | definition: the pass from an index stays inside the text when every `//` it reaches has a newline after it and every `/*` it opens outside strings is closed |
| `GroupCollector.SlashFreeDefined` | src/comment.cpp:115-131 | the pass can only leave the text at a `//` or a `/*`: from any index after which no `/` follows, it is defined |
| `GroupCollector.CollectFrom` | src/comment.cpp:102-170 | entries are in non-decreasing line order, none is before the counter's starting line, and no label contains a bracket |
| `GroupCollector.CollectGroups` | src/comment.cpp:95-172 | the group list is ordered by line, every line number is at least 1, and no label contains a bracket |
| `GroupCollector.EntriesFromBlocks` | src/comment.cpp:102-170 | every entry comes from a closed block comment at or after the scan position: its label is that comment's label, and its line is at most the line the comment really starts on |
| `GroupCollector.NoBlockNoGroups` | src/comment.cpp:123-169 | a text with no `/*` yields no group entries |
| `GroupCollector.ClosedCommentsSuffice` | src/comment.cpp:115-131 | the group pass stays inside a text that ends with a newline and closes every `/*` |
| `GroupHeadings.LineCommentSkipped` | src/comment.cpp:115-119 | a `//` comment is skipped up to and including its newline: the pass from the `//` is defined exactly when it is from just after the newline, and it then records the same entries with the counter one line further on |
| `GroupHeadings.PlainSkipped` | src/comment.cpp:102-123 | a character that neither flips the quote flag nor starts a `//` comment, nor a block comment outside strings, is passed over without an entry, moving the counter on exactly when it is a newline |
| `GroupHeadings.SkimStretch` | src/comment.cpp:102-123 | a stretch reached outside strings and made of plain code, lone `/` characters followed by neither `*` nor `/`, string literals closed within it with no `//` inside, and whole `//` comments adds no entry and leaves the pass outside strings; the pass is defined at its start exactly when it is at its end, and the counter moves on by exactly the stretch's newlines, those inside string literals included and one per `//` comment |
| `GroupHeadings.SkimLine` | src/comment.cpp:115-119 | the same, for a stretch that opens with a `//` comment |
| `GroupHeadings.SkimChar` | src/comment.cpp:102-123 | the same, for a stretch that opens with a character other than `"`, a lone `/` included |
| `GroupHeadings.SkimQuote` | src/comment.cpp:102-123 | the same, for a stretch that opens with a string literal |
| `GroupHeadings.QuoteToggles` | src/comment.cpp:110-113 | a `"` adds nothing and flips the quote flag: the pass from it is the pass from the next character with the flag flipped, on the same line |
| `GroupHeadings.StringRun` | src/comment.cpp:102-123 | inside a string, a run with no `"` and no `//` up to the closing quote adds no entry, whatever `/*` it holds, and moves the counter on by its newlines |
| `GroupHeadings.QuotedSkipped` | src/comment.cpp:102-123 | a string literal reached outside strings, with no `"` and no `//` inside, adds no entry, moves the counter on by its newlines, and leaves the pass outside strings after its closing quote |
| `GroupHeadings.StringLiteral` | src/comment.cpp:110-113 | a string literal with no `"` and no `//` inside is a skimmed stretch holding the newlines of its text |
| `GroupHeadings.LoneSlash` | src/comment.cpp:115-123 | a `/` followed by a skimmed rest that starts with neither `*` nor `/`, as in a division, is skimmed and adds no newline |
| `GroupHeadings.CommentedLine` | src/comment.cpp:115-119 | a line of code without `"` and `/`, ended by a `//` comment that holds anything but a newline, is such a stretch, and it moves the counter on by the code's newlines plus one |
| `GroupHeadings.BlockRecorded` | src/comment.cpp:123-169 | a `/*` reached outside strings, with no `*/` inside, gives one entry with that comment's label on the counter's current line, and the pass resumes on the closing `/` |
| `GroupHeadings.SlashStep` | src/comment.cpp:115-123 | a `/` followed by neither `*` nor `/` is passed over without an entry |
| `GroupHeadings.CommentFrom` | src/comment.cpp:102-169 | after a stretch the pass skips from line `lineNo` to line `l`, a block comment gives exactly one entry, with its label, on line `l`, and the pass goes on from its closing `/` |
| `GroupHeadings.HeadingAt` | src/comment.cpp:95-172 | the first block comment after a skimmed start (code, lone `/` characters, string literals without `//` inside, and `//` comments) is the first entry of the group list, on line 1 plus the start's newlines, and the rest of the list is what the pass finds after its closing `/` |
| `GroupHeadings.HeadingFound` | src/comment.cpp:95-172 | for `before /* body */ after`, where `before` is skimmed (code, lone `/` characters followed by neither `*` nor `/`, string literals without `//` inside, and whole `//` comments), the first entry is `body`'s label on line 1 plus the newlines of `before`, each `//` comment counting one line |
| `GroupHeadings.DocumentFrom` | src/comment.cpp:102-170 | from any point where a well-formed document starts, the pass yields one entry per comment, in order, each with its own label and line |
| `GroupHeadings.DocumentHeadings` | src/comment.cpp:95-172 | completeness: for skimmed stretches (code, lone `/` characters followed by neither `*` nor `/`, string literals without `//` inside, and whole `//` comments) with block comments between them, each stretch after a comment starting with neither `*` nor `/`, the pass is defined and the group list is exactly one entry per block comment, in order, on the lines the counter shows |
| `Annotator.UpToNul` | src/comment.cpp:196 | the `c_str()` copy is the longest NUL-free prefix of the string, and a NUL-free string is unchanged |
| `Annotator.UpToFirstNul` | src/comment.cpp:181 | a C string read from `text`, a NUL and anything after is `text` |
| `Annotator.FindFrom` | src/comment.cpp:213-215 | the search stops at the first entry whose recorded line is not earlier than the assignment's line, and every entry it passed is earlier |
| `Annotator.GroupFor` | src/comment.cpp:212-221 | a group is found exactly when the first entry's recorded line is earlier, and it is an entry with an earlier line whose successor, if any, is not earlier |
| `Annotator.LastBeforeIsLast` | src/comment.cpp:212-221 | the reference search for the last entry with an earlier recorded line finds one exactly when some entry has an earlier line, and then yields the label of the last such entry |
| `Annotator.GroupLookupIsLastBefore` | src/comment.cpp:212-221 | on a list ordered by line, the lookup gives the label of the last entry with an earlier recorded line, and nothing when there is none |
| `Annotator.Assemble` | src/comment.cpp:201-221 | Parameter first; kinds in the order Parameter, Description, Group, each at most once; Description present exactly when the description is non-empty; Group present exactly when a group was found |
| `Annotator.ParameterOf` | src/comment.cpp:194-200 | the parser's result for the NUL-truncated comment, or an empty string literal when the parser fails |
| `Annotator.AnnotationsFor` | src/comment.cpp:187-221 | one to three annotations with Parameter first and kinds in push order; Description exactly when `getDescription` of the previous line is non-empty; Group exactly when the lookup finds one |
| `Annotator.GroupIsLastHeadingBefore` | src/comment.cpp:181-221 | with the groups of the whole text, an assignment has a Group exactly when some heading's recorded line (newlines inside block comments are not counted) is earlier than its own, and it is the last such heading |
| `Annotator.DocumentedAssignment` | src/comment.cpp:187-210 | for a `//` description line followed by the assignment's code and its `//` comment, the Parameter is parsed from that comment and the Description is that text, present only when it is non-empty |
| `Annotator.DocumentedText` | src/comment.cpp:187-210 | in such a text both scanners are defined and return the comment and the description that were put there |
| `Annotator.AddParameter` | src/comment.cpp:178-224 | the text is cut at its first NUL and the groups are collected once from it; each literal assignment gets the annotation list of its first line, and non-literal assignments get none |
| `Annotator.TextEndsAtNul` | src/comment.cpp:181-205 | whatever follows the first NUL changes neither whether the pass is defined nor any assignment's annotations |
| `Annotator.OneParameterEach` | src/comment.cpp:184-203 | every literal assignment gets exactly one Parameter annotation, and it comes first |
| `Scenarios.QuotedMarkerSkipped` | src/comment.cpp:39-50 | `"//"//c` yields `c`: the quoted `//` is skipped |
| `Scenarios.TwoStatementsHideComment` | src/comment.cpp:41-44 | `a;b;//c` yields the empty string |
| `Scenarios.OneStatementKeepsComment` | src/comment.cpp:41-50 | `a;//b` yields `b`: one `;` does not block |
| `Scenarios.MarkerAtLineEnd` | src/comment.cpp:48-50 | a `//` that ends the line yields the empty string |
| `Scenarios.FirstLineRunsIntoSecond` | src/comment.cpp:23-33 | in `\nx//c\n`, line 1 yields `c`, the comment of line 2 |
| `Scenarios.InnerMarkerBecomesSpace` | src/comment.cpp:71-87 | `//<tab>a//b` yields `a b` |
| `Scenarios.IndentedCommentIgnored` | src/comment.cpp:61-68 | ` //a` (indented) yields no description |
| `Scenarios.SegmentsJoined` | src/comment.cpp:138-168 | `/*[A][B]*/` yields one entry labelled `A-B` on line 1 |
| `Scenarios.EmptyLabelEntry` | src/comment.cpp:166-168 | a block comment without brackets yields an entry with an empty label |
| `Scenarios.BlockNewlineUncounted` | src/comment.cpp:123-131 | a heading after a two-line block comment is recorded one line early |
| `Scenarios.LineCommentInsideString` | src/comment.cpp:110-120 | `"//"` inside a string hides the next line's heading |
| `Scenarios.StringBeforeHeading` | src/comment.cpp:102-131 | in `s = "a";`, newline, `/*[G]*/`, the string is left at its closing quote and `G` is recorded on line 2 |
| `Scenarios.DivisionBeforeHeading` | src/comment.cpp:102-131 | in `w = 4/2;`, newline, `/*[G]*/`, the division sign opens nothing and `G` is recorded on line 2 |
| `Scenarios.LineCommentHidesBlock` | src/comment.cpp:115-131 | in `//*[X]*/`, newline, `/*[G]*/`, the line comment hides the block comment that starts on its second slash, and the heading is recorded on line 2 |
| `Scenarios.ClosingSlashReopens` | src/comment.cpp:102-131 | `/*[A]*/*[B]*/` yields two entries, because the closing `/` opens a new comment |
| `Scenarios.EmptyLabelShadowsHeading` | src/comment.cpp:212-221 | an empty-label entry after a heading gives the assignment group `""` |
| `Scenarios.SameLineHeadingIgnored` | src/comment.cpp:212-221 | an entry recorded on the assignment's own line does not apply to it |

## Left out

- The expression parser `CommentParser::parser` is not part of this model. It is a function parameter from the comment text to an optional expression, and a parsed expression is an opaque node.
- The AST and memory plumbing is not modelled: `FileModule`, `Assignment`, `location()`, `Literal` and `ValuePtr`. An assignment is reduced to its literal flag and first line.
- `Assignment::add_annotations` is not part of this model, and neither is the heap-allocated `AnnotationList` or its leak. The model returns, for each assignment, the list the loop hands to `add_annotations`.
- Reads past the end of the text (undefined behaviour) and the `std::out_of_range` an unclosed `/*` throws are preconditions (`CommentDefined`, `DescriptionDefined`, `ScanDefined`) rather than modelled results.
- GroupCollector.EntriesFromBlocks: it states only where each entry comes from, with an upper bound on its line. Completeness is stated separately, by `GroupHeadings.HeadingFound` and `GroupHeadings.DocumentHeadings`: one entry per block comment, with its exact line.
- GroupCollector.CollectGroups: its own contract covers order, line bounds and bracket-free labels. Completeness, with exact lines, is stated by `GroupHeadings.HeadingFound` and `GroupHeadings.DocumentHeadings` for texts whose stretches between headings are skimmed: plain code, lone `/` characters followed by neither `*` nor `/`, string literals with no `//` inside, and whole `//` comments. Three layouts are outside that statement. A string literal holding `//` keeps the pass inside the string (`Scenarios.LineCommentInsideString`). A stretch ending in a `/` right before a heading is read as a `//` comment. A stretch after a heading that starts with `*` or `/` is turned into a new comment by the closing `/` (`Scenarios.ClosingSlashReopens`).
- CommentLocator.StartFrom: its own contract is a bound. Where the search stops is stated by `CommentLocator.SegmentStart` and `CommentLocator.SegmentStartAt`.
- DescriptionExtractor.LineStartFrom: its own contract is a bound. Where the search stops is stated by `DescriptionExtractor.LineStart` and `DescriptionExtractor.LineStartAt`.
- Integer widths are not modelled: indices and line numbers are unbounded. The C++ code uses `unsigned int` indices (lines 24, 36, 61, 102 and 138), `int end` (line 30), `int lineNo` (line 98) and `int` line arithmetic (lines 188, 205 and 213). The model matches the code only for texts shorter than 2^31 characters, where none of these can wrap or overflow.
- CommentLocator.ScanLine: its own contract only says a reported marker is a `//`. What the scan finds is stated by `CommentLocator.ScanFindsSplit`.
- CommentLocator.GetComment: its own contract covers the empty cases and the absence of newlines. The rest is stated by `CommentLocator.GetCommentIsTextAfterSplit` and `CommentLocator.CommentRoundTrip`.
- GroupCollector.LabelFrom: its own contract only keeps brackets out. What the loop builds is stated by `GroupCollector.ScanIsJoin`.
- GroupCollector.CollectFrom: its own contract covers order, line bounds and bracket-free labels. Where entries come from is stated by `GroupCollector.EntriesFromBlocks`. Which comments give entries, and on which line, is stated by the `GroupHeadings` lemmas.
- `tests/cakebaby.py` is a build-log report script (file I/O, regular expressions and templating) with no part in the annotator.
- `std::string` is modelled as a sequence of characters. Escape sequences inside string literals are not recognised, because the code does not recognise them either.
