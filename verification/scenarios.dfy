// Concrete inputs that pin down the scanners' edge cases, each checked
// against the model: quoted markers, the second-semicolon rule, marker
// replacement in descriptions, and the group pass's handling of empty
// labels, line comments inside strings, newlines inside block comments
// and a block comment reopened on its own closing slash.
module Scenarios {
  import opened Text
  import opened CommentLocator
  import opened DescriptionExtractor
  import opened GroupCollector
  import opened Annotator
  import GroupHeadings

  // ----- getComment -----

  /** A `//` inside a string literal is not the split point; the one
      after the string is. */
  lemma QuotedMarkerSkipped()
    ensures CommentDefined("\"//\"//c\n", 1)
    ensures GetComment("\"//\"//c\n", 1) == "c"
  {
    var text := "\"//\"//c\n";
    assert text[7] == '\n';
    assert Segment(text, 1) == "\"//\"//c";
    assert ScanLine("\"//\"//c", 1, false, 0) == Marker(4);
  }

  /** Two statements before the comment: the second `;` hides it. */
  lemma TwoStatementsHideComment()
    ensures CommentDefined("a;b;//c\n", 1)
    ensures GetComment("a;b;//c\n", 1) == ""
  {
    var text := "a;b;//c\n";
    assert text[7] == '\n';
    assert Segment(text, 1) == "a;b;//c";
    assert ScanLine("a;b;//c", 2, true, 1) == Blocked;
  }

  /** One statement before the comment does not hide it. */
  lemma OneStatementKeepsComment()
    ensures CommentDefined("a;//b\n", 1)
    ensures GetComment("a;//b\n", 1) == "b"
  {
    var text := "a;//b\n";
    assert text[5] == '\n';
    assert Segment(text, 1) == "a;//b";
    assert ScanLine("a;//b", 1, true, 0) == Marker(2);
  }

  /** A marker that ends the line leaves an empty comment. */
  lemma MarkerAtLineEnd()
    ensures CommentDefined("a//\n", 1)
    ensures GetComment("a//\n", 1) == ""
  {
    var text := "a//\n";
    assert text[3] == '\n';
    assert Segment(text, 1) == "a//";
  }

  /** Line 1 of a text that starts with a newline: the newline search
      starts one past the segment's start, so the segment runs on to the
      end of line 2 and line 2's comment is returned. */
  lemma FirstLineRunsIntoSecond()
    ensures CommentDefined("\nx//c\n", 1)
    ensures GetComment("\nx//c\n", 1) == "c"
  {
    var text := "\nx//c\n";
    assert text[5] == '\n';
    assert Segment(text, 1) == "\nx//c";
    assert ScanLine("\nx//c", 2, true, 0) == Marker(2);
  }

  // ----- getDescription -----

  /** Blanks after the marker are dropped and an inner `//` becomes one
      space. */
  lemma InnerMarkerBecomesSpace()
    ensures DescriptionDefined("//\ta//b\n", 1)
    ensures GetDescription("//\ta//b\n", 1) == "a b"
  {
    var t := "//\ta//b\n";
    assert t[7] == '\n';
    assert SkipBlanks(t, 2) == 3;
    assert CopyLine(t, 6) == "b";
    assert CopyLine(t, 4) == " b";
    assert CopyLine(t, 3) == "a b";
  }

  /** An indented comment line is not a description. */
  lemma IndentedCommentIgnored()
    ensures DescriptionDefined(" //a\n", 1)
    ensures GetDescription(" //a\n", 1) == ""
  {
  }

  // ----- collectGroups -----

  /** Two segments in one comment are joined with a dash. */
  lemma SegmentsJoined()
    ensures ScanDefined("/*[A][B]*/\n", 0, true)
    ensures CollectGroups("/*[A][B]*/\n") == [GroupEntry("A-B", 1)]
  {
    JoinedLabel();
    JoinedComment("/*[A][B]*/\n");
  }

  lemma JoinedLabel()
    ensures Label("[A][B]") == "A-B"
  {
    var c := "[A][B]";
    assert LabelFrom(c, 3, false, [], "A") == "A-B";
    assert LabelFrom(c, 0, false, [], []) == LabelFrom(c, 3, false, [], "A");
  }

  lemma JoinedComment(t: string)
    requires t == "/*[A][B]*/\n" && Label("[A][B]") == "A-B"
    ensures ScanDefined(t, 0, true) && CollectGroups(t) == [GroupEntry("A-B", 1)]
  {
    JoinedShape(t);
    assert t[..0] == [];
    GroupHeadings.HeadingAt(t, 0, "[A][B]", 1);
  }

  lemma JoinedShape(t: string)
    requires t == "/*[A][B]*/\n"
    ensures |t| == 11 && t[2..8] == "[A][B]" && NoMarker("[A][B]", '*', '/')
    ensures MarkerAt(t, 0, '/', '*') && MarkerAt(t, 8, '*', '/')
    ensures ScanDefined(t, 9, true) && CollectFrom(t, 9, 1, true) == []
  {
    assert t[10..] == "\n";
    SlashFreeDefined(t, 10, true);
    assert CollectFrom(t, 10, 1, true) == [];
  }

  /** A block comment without brackets still yields an entry, with an empty
      label. */
  lemma EmptyLabelEntry()
    ensures ScanDefined("/* */\n", 0, true)
    ensures CollectGroups("/* */\n") == [GroupEntry("", 1)]
  {
    var t := "/* */\n";
    assert MarkerAt(t, 3, '*', '/');
    assert NextMarker(t, 2, '*', '/') == 3;
    assert t[2..3] == " ";
  }

  /** A newline inside a block comment is not counted: the second heading,
      on line 3 of the text, is recorded on line 2. */
  lemma BlockNewlineUncounted()
    ensures ScanDefined("/*\n[A]*/\n/*[B]*/\n", 0, true)
    ensures CollectGroups("/*\n[A]*/\n/*[B]*/\n") == [GroupEntry("A", 1), GroupEntry("B", 2)]
  {
    var t := "/*\n[A]*/\n/*[B]*/\n";
    AfterFirstHeading();
    FirstHeadingSpansLines(t);
  }

  lemma FirstHeadingSpansLines(t: string)
    requires t == "/*\n[A]*/\n/*[B]*/\n"
    ensures ScanDefined(t, 0, true) == ScanDefined(t, 7, true)
    ensures ScanDefined(t, 0, true) ==> CollectFrom(t, 0, 1, true) == [GroupEntry("A", 1)] + CollectFrom(t, 7, 1, true)
  {
    var body := "\n[A]";
    LabelAfterNewline();
    FirstBlockShape(t, body);
    GroupHeadings.BlockRecorded(t, 0, body, 1);
  }

  lemma FirstBlockShape(t: string, body: string)
    requires t == "/*\n[A]*/\n/*[B]*/\n" && body == "\n[A]"
    ensures |body| == 4 && |t| == 17 && t[2..6] == body && NoMarker(body, '*', '/')
    ensures MarkerAt(t, 0, '/', '*') && MarkerAt(t, 6, '*', '/')
  {
  }

  lemma LabelAfterNewline()
    ensures Label("\n[A]") == "A"
  {
    assert LabelFrom("\n[A]", 4, false, [], "A") == "A";
    assert LabelFrom("\n[A]", 1, false, [], []) == "A";
  }

  lemma AfterFirstHeading()
    ensures ScanDefined("/*\n[A]*/\n/*[B]*/\n", 7, true)
    ensures CollectFrom("/*\n[A]*/\n/*[B]*/\n", 7, 1, true) == [GroupEntry("B", 2)]
  {
    var t := "/*\n[A]*/\n/*[B]*/\n";
    SecondHeading();
    GroupHeadings.PlainSkipped(t, 8, 1, true);
    GroupHeadings.SkipsMeans(t, 8, 1, 9, 2, true);
  }

  lemma SecondHeading()
    ensures ScanDefined("/*\n[A]*/\n/*[B]*/\n", 9, true)
    ensures CollectFrom("/*\n[A]*/\n/*[B]*/\n", 9, 2, true) == [GroupEntry("B", 2)]
  {
    var t := "/*\n[A]*/\n/*[B]*/\n";
    assert MarkerAt(t, 14, '*', '/');
    assert NextMarker(t, 11, '*', '/') == 14;
    assert t[11..14] == "[" + "B" + "]";
    SingleSegmentLabel("B");
    assert CollectFrom(t, 15, 2, true) == [];
  }

  /** The `//` skip ignores the quote flag: `"//"` swallows its own closing
      quote, so the pass stays "inside a string" and the heading on the
      next line is missed. */
  lemma LineCommentInsideString()
    ensures ScanDefined("s = \"//\";\n/*[G]*/\n", 0, true)
    ensures CollectGroups("s = \"//\";\n/*[G]*/\n") == []
  {
    StringSwallowsHeading("s = \"//\";\n/*[G]*/\n");
  }

  lemma StringSwallowsHeading(t: string)
    requires t == "s = \"//\";\n/*[G]*/\n"
    ensures ScanDefined(t, 0, true) && CollectGroups(t) == []
  {
    MarkerInsideString();
    assert ScanDefined(t, 4, true) && CollectFrom(t, 4, 1, true) == [];
    assert ScanDefined(t, 2, true) && CollectFrom(t, 2, 1, true) == [];
  }

  /** A `//` comment hides the block comments inside it, even one whose
      opening slash is the comment's second slash, and moves the counter
      on by one line: the heading on the second line is recorded on
      line 2. */
  lemma LineCommentHidesBlock()
    ensures ScanDefined("//*[X]*/\n/*[G]*/\n", 0, true)
    ensures CollectGroups("//*[X]*/\n/*[G]*/\n") == [GroupEntry("G", 2)]
  {
    HeadingAfterLineComment("//*[X]*/\n/*[G]*/\n");
  }

  lemma HeadingAfterLineComment(t: string)
    requires t == "//*[X]*/\n/*[G]*/\n"
    ensures ScanDefined(t, 0, true) && CollectGroups(t) == [GroupEntry("G", 2)]
  {
    CommentedFirstLine(t);
    HeadingOnLineTwo(t);
  }

  lemma CommentedFirstLine(t: string)
    requires t == "//*[X]*/\n/*[G]*/\n"
    ensures GroupHeadings.Skimmed(t[..9]) && Count(t[..9], '\n') == 1
    ensures |t| == 17 && t[9..] == "/*[G]*/\n"
  {
    assert t[..9] == [] + "//" + "*[X]*/" + "\n";
    GroupHeadings.CommentedLine([], "*[X]*/");
  }

  /** A string literal is left again at its closing quote: the heading on
      the next line is recorded, on line 2. */
  lemma StringBeforeHeading()
    ensures ScanDefined("s = \"a\";\n/*[G]*/\n", 0, true)
    ensures CollectGroups("s = \"a\";\n/*[G]*/\n") == [GroupEntry("G", 2)]
  {
    var t := "s = \"a\";\n/*[G]*/\n";
    StringFirstLine(t);
    HeadingOnLineTwo(t);
  }

  lemma StringFirstLine(t: string)
    requires t == "s = \"a\";\n/*[G]*/\n"
    ensures GroupHeadings.Skimmed(t[..9]) && Count(t[..9], '\n') == 1
    ensures |t| == 17 && t[9..] == "/*[G]*/\n"
  {
    var literal := "\"" + "a" + "\"";
    assert t[..9] == "s = " + literal + ";\n";
    GroupHeadings.PlainIsSkimmed("s = ");
    GroupHeadings.PlainIsSkimmed(";\n");
    GroupHeadings.StringLiteral("a");
    GroupHeadings.SkimmedAppend(literal, ";\n");
    GroupHeadings.SkimmedAppend("s = ", literal + ";\n");
    assert "s = " + (literal + ";\n") == "s = " + literal + ";\n";
    CountAppend("s = ", literal + ";\n", '\n');
    CountAppend(literal, ";\n", '\n');
    LineEndCount();
    CountAbsent("s = ", '\n');
    CountAbsent("a", '\n');
  }

  lemma LineEndCount()
    ensures Count(";\n", '\n') == 1 && Count("2;\n", '\n') == 1
  {
    CountAppend("2", ";\n", '\n');
    CountAppend(";", "\n", '\n');
    CountAbsent("2", '\n');
    CountAbsent(";", '\n');
    assert "2" + ";\n" == "2;\n" && ";" + "\n" == ";\n";
  }

  /** A division sign is an ordinary character to the pass: the heading on
      the next line is recorded, on line 2. */
  lemma DivisionBeforeHeading()
    ensures ScanDefined("w = 4/2;\n/*[G]*/\n", 0, true)
    ensures CollectGroups("w = 4/2;\n/*[G]*/\n") == [GroupEntry("G", 2)]
  {
    var t := "w = 4/2;\n/*[G]*/\n";
    DivisionFirstLine(t);
    HeadingOnLineTwo(t);
  }

  lemma DivisionFirstLine(t: string)
    requires t == "w = 4/2;\n/*[G]*/\n"
    ensures GroupHeadings.Skimmed(t[..9]) && Count(t[..9], '\n') == 1
    ensures |t| == 17 && t[9..] == "/*[G]*/\n"
  {
    assert t[..9] == "w = 4" + ("/" + "2;\n");
    GroupHeadings.PlainIsSkimmed("w = 4");
    GroupHeadings.PlainIsSkimmed("2;\n");
    GroupHeadings.LoneSlash("2;\n");
    GroupHeadings.SkimmedAppend("w = 4", "/" + "2;\n");
    CountAppend("w = 4", "/" + "2;\n", '\n');
    LineEndCount();
    CountAbsent("w = 4", '\n');
  }

  /** A skimmed first line of nine characters, then the heading `[G]`: the
      group list is that heading alone, on line 2. */
  lemma HeadingOnLineTwo(t: string)
    requires |t| == 17 && t[9..] == "/*[G]*/\n"
    requires GroupHeadings.Skimmed(t[..9]) && Count(t[..9], '\n') == 1
    ensures ScanDefined(t, 0, true) && CollectGroups(t) == [GroupEntry("G", 2)]
  {
    SecondLineHeading(t);
    SingleSegmentLabel("G");
    HeadingTail(t);
    GroupHeadings.HeadingAt(t, 9, "[G]", 2);
  }

  lemma HeadingTail(t: string)
    requires |t| == 17 && t[9..] == "/*[G]*/\n"
    ensures ScanDefined(t, 15, true) && CollectFrom(t, 15, 2, true) == []
  {
    assert t[15] == t[9..][6] && t[16] == t[9..][7];
    assert ScanDefined(t, 16, true) && CollectFrom(t, 16, 2, true) == [];
  }

  lemma SecondLineHeading(t: string)
    requires |t| == 17 && t[9..] == "/*[G]*/\n"
    ensures t[11..14] == "[" + "G" + "]" && NoMarker("[G]", '*', '/')
    ensures MarkerAt(t, 9, '/', '*') && MarkerAt(t, 14, '*', '/')
  {
    assert t[9] == t[9..][0] && t[10] == t[9..][1];
    assert t[14] == t[9..][5] && t[15] == t[9..][6];
    assert t[11..14] == t[9..][2..5];
  }

  lemma MarkerInsideString()
    ensures ScanDefined("s = \"//\";\n/*[G]*/\n", 5, false)
    ensures CollectFrom("s = \"//\";\n/*[G]*/\n", 5, 1, false) == []
  {
    var t := "s = \"//\";\n/*[G]*/\n";
    HeadingInsideString();
    assert t[9] == '\n';
    assert NextNewline(t, 7) == 9;
  }

  lemma HeadingInsideString()
    ensures ScanDefined("s = \"//\";\n/*[G]*/\n", 10, false)
    ensures CollectFrom("s = \"//\";\n/*[G]*/\n", 10, 2, false) == []
  {
    var t := "s = \"//\";\n/*[G]*/\n";
    assert CollectFrom(t, 12, 2, false) == CollectFrom(t, 18, 3, false);
  }

  /** The pass resumes on the slash that ends a block comment, so `*` `/`
      `*` closes one comment and opens the next. */
  lemma ClosingSlashReopens()
    ensures ScanDefined("/*[A]*/*[B]*/\n", 0, true)
    ensures CollectGroups("/*[A]*/*[B]*/\n") == [GroupEntry("A", 1), GroupEntry("B", 1)]
  {
    var t := "/*[A]*/*[B]*/\n";
    ReopenedHeading();
    FirstHeadingEndsOnSlash();
  }

  lemma FirstHeadingEndsOnSlash()
    ensures ScanDefined("/*[A]*/*[B]*/\n", 0, true) == ScanDefined("/*[A]*/*[B]*/\n", 6, true)
    ensures ScanDefined("/*[A]*/*[B]*/\n", 0, true) ==>
              CollectFrom("/*[A]*/*[B]*/\n", 0, 1, true) ==
              [GroupEntry("A", 1)] + CollectFrom("/*[A]*/*[B]*/\n", 6, 1, true)
  {
    var t := "/*[A]*/*[B]*/\n";
    assert t[2..5] == "[" + "A" + "]";
    assert MarkerAt(t, 0, '/', '*') && MarkerAt(t, 5, '*', '/');
    GroupHeadings.BlockRecorded(t, 0, "[A]", 1);
    SingleSegmentLabel("A");
  }

  lemma ReopenedHeading()
    ensures ScanDefined("/*[A]*/*[B]*/\n", 6, true)
    ensures CollectFrom("/*[A]*/*[B]*/\n", 6, 1, true) == [GroupEntry("B", 1)]
  {
    var t := "/*[A]*/*[B]*/\n";
    assert MarkerAt(t, 11, '*', '/');
    assert NextMarker(t, 8, '*', '/') == 11;
    assert t[8..11] == "[" + "B" + "]";
    SingleSegmentLabel("B");
    assert CollectFrom(t, 12, 1, true) == [];
  }

  // ----- Group lookup -----

  /** An empty-label entry after a heading takes over: the assignment is
      put in group "". */
  lemma EmptyLabelShadowsHeading()
    ensures GroupFor([GroupEntry("Size", 1), GroupEntry("", 3)], 5) == Some("")
  {
    var g := [GroupEntry("Size", 1), GroupEntry("", 3)];
    assert FindFrom(g, 0, 5) == 2;
  }

  /** An entry recorded on the assignment's own line does not apply to
      it. */
  lemma SameLineHeadingIgnored()
    ensures GroupFor([GroupEntry("A", 1), GroupEntry("B", 4)], 4) == Some("A")
    ensures GroupFor([GroupEntry("B", 4)], 4) == None
  {
    assert FindFrom([GroupEntry("A", 1), GroupEntry("B", 4)], 0, 4) == 1;
  }
}
