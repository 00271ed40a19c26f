/**
 The description extractor (`getDescription`, src/comment.cpp:57-89).

 A line that starts, at column 0, with `//` is a description line: its text
 is what follows the marker once leading spaces and tabs are skipped, with
 every further `//` on the line turned into a single space. Any other line
 has no description.
 */
module DescriptionExtractor {
  import opened Text

  /** The line-locating loop (lines 61-65): unlike the one in getComment it
      tests the count before reading, so it stops just past a newline. */
  function LineStartFrom(text: string, s: nat, line: int): (r: nat)
    requires s <= |text|
    ensures s <= r <= |text|
    decreases |text| - s
  {
    if s == |text| then s
    else if line <= 1 then s
    else LineStartFrom(text, s + 1, if text[s] == '\n' then line - 1 else line)
  }

  /** Where `line` begins: index 0 for line 1, and for a later line the index
      just past the newline that ends the line before it, or the end of the
      text when the text has too few lines. */
  function LineStart(text: string, line: int): (s: nat)
    ensures s <= |text|
    ensures line <= 1 ==> s == 0
    ensures line >= 2 ==>
              || (0 < s && text[s - 1] == '\n' && Count(text[..s], '\n') == line - 1)
              || (s == |text| && Count(text, '\n') < line - 1)
  {
    if line >= 2 then LineStartFollowsNewline(text, 0, line, line); LineStartFrom(text, 0, line)
    else LineStartFrom(text, 0, line)
  }

  lemma {:induction false} LineStartFollowsNewline(text: string, s: nat, l: int, line: int)
    requires s <= |text|
    requires l >= 1 && l == line - Count(text[..s], '\n')
    requires l == 1 ==> s > 0 && text[s - 1] == '\n'
    ensures var r := LineStartFrom(text, s, l);
            || (0 < r && text[r - 1] == '\n' && Count(text[..r], '\n') == line - 1)
            || (r == |text| && Count(text, '\n') < line - 1)
    decreases |text| - s
  {
    if s == |text| {
      assert text[..s] == text;
    } else if l >= 2 {
      CountStep(text, s, '\n');
      LineStartFollowsNewline(text, s + 1, if text[s] == '\n' then l - 1 else l, line);
    }
  }

  /** Conversely, the index just past a newline preceded (inclusively) by
      exactly `line - 1` newlines is where `line` begins. */
  lemma LineStartAt(text: string, line: int, k: nat)
    requires line >= 2 && 0 < k <= |text| && text[k - 1] == '\n'
    requires Count(text[..k], '\n') == line - 1
    ensures LineStart(text, line) == k
  {
    CountStep(text, k - 1, '\n');
    LineStartReaches(text, 0, line, line, k);
  }

  lemma {:induction false} LineStartReaches(text: string, s: nat, l: int, line: int, k: nat)
    requires s <= k <= |text| && 0 < k
    requires Count(text[..k - 1], '\n') == line - 2 && text[k - 1] == '\n'
    requires l == line - Count(text[..s], '\n')
    ensures LineStartFrom(text, s, l) == k
    decreases k - s
  {
    if s < k {
      CountStep(text, s, '\n');
      CountSplit(text, s, k - 1, '\n');
      if s + 1 < k {
        CountSplit(text, s + 1, k - 1, '\n');
      }
      LineStartReaches(text, s + 1, if text[s] == '\n' then l - 1 else l, line, k);
    } else {
      CountStep(text, k - 1, '\n');
    }
  }

  /** What `getDescription` needs to stay inside the text (lines 74, 78):
      a description line must end with a newline. */
  predicate DescriptionDefined(text: string, line: int)
  {
    || line < 1
    || !MarkerAt(text, LineStart(text, line), '/', '/')
    || NewlineFrom(text, LineStart(text, line) + 2)
  }

  /** The blank-skipping loop (line 74): the first index from `i` on that
      holds neither a space nor a tab. */
  function SkipBlanks(text: string, i: nat): (j: nat)
    requires NewlineFrom(text, i)
    ensures i <= j <= NextNewline(text, i)
    ensures text[j] != ' ' && text[j] != '\t'
    ensures forall k :: i <= k < j ==> text[k] == ' ' || text[k] == '\t'
    decreases |text| - i
  {
    if text[i] == ' ' || text[i] == '\t' then SkipBlanks(text, i + 1) else i
  }

  /** The copy loop (lines 75-87): the rest of the line from `i`, with each
      `//` turned into one space. */
  function CopyLine(text: string, i: nat): (r: string)
    requires NewlineFrom(text, i)
    ensures '\n' !in r
    ensures NoMarker(r, '/', '/')
    ensures |r| <= NextNewline(text, i) - i
    ensures |r| > 0 ==> r[0] == (if MarkerAt(text, i, '/', '/') then ' ' else text[i])
    decreases |text| - i
  {
    if text[i] == '\n' then ""
    else if MarkerAt(text, i, '/', '/') then
      var rest := CopyLine(text, i + 2);
      NoMarkerCons(' ', rest);
      [' '] + rest
    else
      var rest := CopyLine(text, i + 1);
      NoMarkerCons(text[i], rest);
      [text[i]] + rest
  }

  /** Putting a character in front keeps a string free of `//` unless both
      the character and the old first character are `/`. */
  lemma NoMarkerCons(c: char, rest: string)
    requires NoMarker(rest, '/', '/')
    requires |rest| > 0 ==> c != '/' || rest[0] != '/'
    ensures NoMarker([c] + rest, '/', '/')
  {
    forall i | 0 <= i < |[c] + rest|
      ensures !MarkerAt([c] + rest, i, '/', '/')
    {
      if i > 0 {
        assert !MarkerAt(rest, i - 1, '/', '/');
      }
    }
  }

  /** getDescription (lines 57-89). */
  function GetDescription(text: string, line: int): (r: string)
    requires DescriptionDefined(text, line)
    ensures line < 1 ==> r == ""
    ensures line >= 1 && !MarkerAt(text, LineStart(text, line), '/', '/') ==> r == ""
    ensures '\n' !in r && NoMarker(r, '/', '/')
    ensures r != "" ==>
              && line >= 1
              && r[0] != '\t'
              && (r[0] == ' ' ==> MarkerAt(text, SkipBlanks(text, LineStart(text, line) + 2), '/', '/'))
  {
    if line < 1 then ""
    else
      var s := LineStart(text, line);
      if !MarkerAt(text, s, '/', '/') then ""
      else CopyLine(text, SkipBlanks(text, s + 2))
  }

  /** A line without `//` is copied verbatim. */
  lemma {:induction false} CopyVerbatim(text: string, i: nat)
    requires NewlineFrom(text, i)
    requires forall j :: i <= j < NextNewline(text, i) ==> !MarkerAt(text, j, '/', '/')
    ensures CopyLine(text, i) == text[i..NextNewline(text, i)]
    decreases |text| - i
  {
    if text[i] != '\n' {
      CopyVerbatim(text, i + 1);
    }
  }

  // ----- Every inner `//` becomes one space -----

  /** The line's text before a `//` at `m` is copied as it is, and the
      `//` becomes one space: `u` is free of newlines and of `//`, and does
      not end in `/` (otherwise the marker would start one character
      earlier). */
  lemma {:induction false} MarkerBecomesSpace(text: string, i: nat, u: string, m: nat)
    requires m == i + |u| && m <= |text| && text[i..m] == u
    requires '\n' !in u && NoMarker(u, '/', '/') && (|u| == 0 || u[|u| - 1] != '/')
    requires MarkerAt(text, m, '/', '/') && NewlineFrom(text, m + 2)
    ensures NewlineFrom(text, i)
    ensures CopyLine(text, i) == u + " " + CopyLine(text, m + 2)
    decreases |u|
  {
    var rest := CopyLine(text, m + 2);
    if |u| == 0 {
      assert u + " " + rest == [' '] + rest;
    } else {
      assert text[i] == u[0] && text[i + 1..m] == u[1..];
      assert !MarkerAt(text, i, '/', '/') by {
        if |u| >= 2 {
          assert text[i + 1] == u[1] && !MarkerAt(u, 0, '/', '/');
        }
      }
      forall k | 0 <= k < |u[1..]|
        ensures !MarkerAt(u[1..], k, '/', '/')
      {
        assert !MarkerAt(u, k + 1, '/', '/');
      }
      MarkerBecomesSpace(text, i + 1, u[1..], m);
      assert CopyLine(text, i) == [u[0]] + CopyLine(text, i + 1);
      ConsRegroup(CopyLine(text, i), CopyLine(text, i + 1), u, " ", rest);
    }
  }

  lemma ConsRegroup(a: string, b: string, u: string, v: string, w: string)
    requires |u| > 0 && a == [u[0]] + b && b == u[1..] + v + w
    ensures a == u + v + w
  {
    assert u == [u[0]] + u[1..];
  }

  /** Pieces that meet at `//` seams and at no other place: none holds a
      `//`, and none but the last ends in `/`. */
  predicate MarkerFreePieces(pieces: seq<string>)
  {
    forall k :: 0 <= k < |pieces| ==>
      && NoMarker(pieces[k], '/', '/')
      && (k + 1 < |pieces| && pieces[k] != [] ==> pieces[k][|pieces[k]| - 1] != '/')
  }

  /** A line whose text is `pieces` joined with `//` is copied as the same
      pieces joined with single spaces. */
  lemma {:induction false} CopyPieces(text: string, i: nat, pieces: seq<string>)
    requires |pieces| >= 1 && MarkerFreePieces(pieces)
    requires '\n' !in Join(pieces, "//")
    requires i + |Join(pieces, "//")| < |text| && text[i + |Join(pieces, "//")|] == '\n'
    requires text[i..i + |Join(pieces, "//")|] == Join(pieces, "//")
    ensures NewlineFrom(text, i)
    ensures CopyLine(text, i) == Join(pieces, " ")
    decreases |pieces|
  {
    var u := pieces[0];
    if |pieces| == 1 {
      LineCopied(text, i, u);
    } else {
      var rest := Join(pieces[1..], "//");
      var j := i + |u| + 2;
      JoinFirst(pieces, "//");
      SeamLayout(text, i, u, rest);
      assert MarkerFreePieces(pieces[1..]) by {
        forall k | 0 <= k < |pieces[1..]|
          ensures NoMarker(pieces[1..][k], '/', '/')
        {
          assert pieces[1..][k] == pieces[k + 1];
        }
      }
      CopyPieces(text, j, pieces[1..]);
      MarkerBecomesSpace(text, i, u, i + |u|);
    }
  }

  /** Where `u`, the `//` and `rest` sit when `u + "//" + rest` starts at
      index `i`. */
  lemma SeamLayout(text: string, i: nat, u: string, rest: string)
    requires i + |u| + 2 + |rest| <= |text|
    requires text[i..i + |u| + 2 + |rest|] == u + "//" + rest
    ensures text[i..i + |u|] == u
    ensures MarkerAt(text, i + |u|, '/', '/')
    ensures text[i + |u| + 2..i + |u| + 2 + |rest|] == rest
    ensures '\n' !in u + "//" + rest ==> '\n' !in u && '\n' !in rest
  {
    var w := u + "//" + rest;
    assert forall m :: 0 <= m < |w| ==> text[i + m] == w[m];
    assert forall m :: 0 <= m < |u| ==> w[m] == u[m];
    assert forall m :: 0 <= m < |rest| ==> w[|u| + 2 + m] == rest[m];
    assert w[|u|] == '/' && w[|u| + 1] == '/';
  }

  /** A line with no `//` up to its newline is copied unchanged. */
  lemma LineCopied(text: string, b: nat, d: string)
    requires b + |d| < |text| && text[b + |d|] == '\n'
    requires text[b..b + |d|] == d
    requires '\n' !in d && NoMarker(d, '/', '/')
    ensures NewlineFrom(text, b)
    ensures CopyLine(text, b) == d
  {
    var e := b + |d|;
    assert NewlineFrom(text, b);
    assert forall j :: b <= j < e ==> text[j] == d[j - b];
    assert NextNewline(text, b) == e;
    forall j | b <= j < e
      ensures !MarkerAt(text, j, '/', '/')
    {
      if j + 1 < e {
        assert !MarkerAt(d, j - b, '/', '/');
      }
    }
    CopyVerbatim(text, b);
  }

  /** The line `s` cut at each `//`, scanning from the left. Joining the
      pieces with `//` gives `s` back. */
  function SplitAtMarkers(s: string): (r: seq<string>)
    ensures |r| >= 1 && MarkerFreePieces(r) && Join(r, "//") == s
    decreases |s|
  {
    if |s| == 0 then [""]
    else if MarkerAt(s, 0, '/', '/') then
      var p := SplitAtMarkers(s[2..]);
      assert s == "//" + s[2..];
      [""] + p
    else
      var p := SplitAtMarkers(s[1..]);
      PrependToPieces(s, p);
      [[s[0]] + p[0]] + p[1..]
  }

  /** The step of `SplitAtMarkers` that adds a character to the first
      piece. */
  lemma PrependToPieces(s: string, p: seq<string>)
    requires |s| > 0 && !MarkerAt(s, 0, '/', '/')
    requires |p| >= 1 && MarkerFreePieces(p) && Join(p, "//") == s[1..]
    ensures MarkerFreePieces([[s[0]] + p[0]] + p[1..])
    ensures Join([[s[0]] + p[0]] + p[1..], "//") == s
  {
    JoinPrepend(s[0], p, "//");
    assert s == [s[0]] + s[1..];
    JoinFirst(p, "//");
    FirstPieceGrows(s, p);
  }

  lemma FirstPieceGrows(s: string, p: seq<string>)
    requires |s| > 0 && !MarkerAt(s, 0, '/', '/')
    requires |p| >= 1 && MarkerFreePieces(p) && Join(p, "//") == s[1..]
    requires Join(p, "//")[..|p[0]|] == p[0]
    requires |p| > 1 ==> Join(p, "//") == p[0] + "//" + Join(p[1..], "//")
    ensures MarkerFreePieces([[s[0]] + p[0]] + p[1..])
  {
    var q := [[s[0]] + p[0]] + p[1..];
    if p[0] != [] {
      assert p[0][0] == s[1..][0];
      NoMarkerCons(s[0], p[0]);
    } else {
      NoMarkerCons(s[0], []);
      if |p| > 1 {
        assert s[1..][0] == '/';
      }
    }
    forall k | 1 <= k < |q|
      ensures q[k] == p[k]
    {
    }
  }

  /** The copy loop, stated without the loop: the rest of the line, cut at
      each `//` and joined again with single spaces. */
  lemma CopyLineSplits(text: string, i: nat)
    requires NewlineFrom(text, i)
    ensures CopyLine(text, i) == Join(SplitAtMarkers(text[i..NextNewline(text, i)]), " ")
  {
    var e := NextNewline(text, i);
    var pieces := SplitAtMarkers(text[i..e]);
    assert '\n' !in text[i..e];
    CopyPieces(text, i, pieces);
  }

  /** getDescription, stated without its loops: on a line that starts with
      `//`, the text after the marker and the blanks up to the newline, cut
      at each `//` and joined again with single spaces. */
  lemma DescriptionIsSpacedLine(text: string, line: int)
    requires line >= 1 && DescriptionDefined(text, line) && MarkerAt(text, LineStart(text, line), '/', '/')
    ensures var b := SkipBlanks(text, LineStart(text, line) + 2);
            GetDescription(text, line) == Join(SplitAtMarkers(text[b..NextNewline(text, b)]), " ")
  {
    CopyLineSplits(text, SkipBlanks(text, LineStart(text, line) + 2));
  }

  // ----- Round trips -----

  /** Round trip: a description line `//`, blanks, then the pieces joined
      with `//` gives back the pieces joined with single spaces. */
  lemma DescriptionPiecesRoundTrip(before: string, blanks: string, pieces: seq<string>, after: string, line: int)
    requires line >= 1
    requires if line == 1 then before == "" else |before| > 0 && before[|before| - 1] == '\n' && Count(before, '\n') == line - 1
    requires forall k :: 0 <= k < |blanks| ==> blanks[k] == ' ' || blanks[k] == '\t'
    requires |pieces| >= 1 && MarkerFreePieces(pieces) && '\n' !in Join(pieces, "//")
    requires |Join(pieces, "//")| > 0 ==> Join(pieces, "//")[0] != ' ' && Join(pieces, "//")[0] != '\t'
    ensures DescriptionDefined(before + ("//" + blanks + Join(pieces, "//") + "\n" + after), line)
    ensures GetDescription(before + ("//" + blanks + Join(pieces, "//") + "\n" + after), line) == Join(pieces, " ")
  {
    var d := Join(pieces, "//");
    var rest := "//" + blanks + d + "\n" + after;
    var text := before + rest;
    var b := |before| + 2 + |blanks|;
    DescriptionLineShape(before, blanks, d, after, text, b);
    StartOfLineAfter(before, rest, line);
    DescriptionAt(text, line, |before|, b, pieces);
  }

  /** Round trip: a description line `//`, blanks, then a description that
      has no `//`, no newline and no leading blank, gives back the
      description. */
  lemma DescriptionRoundTrip(before: string, blanks: string, d: string, after: string, line: int)
    requires line >= 1
    requires if line == 1 then before == "" else |before| > 0 && before[|before| - 1] == '\n' && Count(before, '\n') == line - 1
    requires forall k :: 0 <= k < |blanks| ==> blanks[k] == ' ' || blanks[k] == '\t'
    requires '\n' !in d && NoMarker(d, '/', '/')
    requires |d| > 0 ==> d[0] != ' ' && d[0] != '\t'
    ensures DescriptionDefined(before + ("//" + blanks + d + "\n" + after), line)
    ensures GetDescription(before + ("//" + blanks + d + "\n" + after), line) == d
  {
    DescriptionPiecesRoundTrip(before, blanks, [d], after, line);
  }

  /** A line starting at `s` with `//`, blanks up to `b`, then the pieces
      joined with `//` and a newline has the pieces joined with spaces as
      its description. */
  lemma DescriptionAt(text: string, line: int, s: nat, b: nat, pieces: seq<string>)
    requires line >= 1 && LineStart(text, line) == s && MarkerAt(text, s, '/', '/')
    requires |pieces| >= 1 && MarkerFreePieces(pieces) && '\n' !in Join(pieces, "//")
    requires s + 2 <= b && b + |Join(pieces, "//")| < |text| && text[b + |Join(pieces, "//")|] == '\n'
    requires text[b..b + |Join(pieces, "//")|] == Join(pieces, "//")
    requires forall k :: s + 2 <= k < b ==> text[k] == ' ' || text[k] == '\t'
    requires |Join(pieces, "//")| > 0 ==> Join(pieces, "//")[0] != ' ' && Join(pieces, "//")[0] != '\t'
    ensures DescriptionDefined(text, line)
    ensures GetDescription(text, line) == Join(pieces, " ")
  {
    BodyCopied(text, s + 2, b, pieces);
  }

  /** Where the pieces of a description line sit in the text. */
  lemma DescriptionLineShape(before: string, blanks: string, d: string, after: string, text: string, b: nat)
    requires forall k :: 0 <= k < |blanks| ==> blanks[k] == ' ' || blanks[k] == '\t'
    requires text == before + ("//" + blanks + d + "\n" + after)
    requires b == |before| + 2 + |blanks|
    ensures b + |d| < |text|
    ensures MarkerAt(text, |before|, '/', '/')
    ensures text[b + |d|] == '\n'
    ensures text[b..b + |d|] == d
    ensures forall k :: |before| + 2 <= k < b ==> text[k] == ' ' || text[k] == '\t'
  {
    var p1 := "//" + blanks;
    var p2 := p1 + d;
    var p3 := p2 + "\n";
    var s := |before|;
    assert text == before + (p3 + after);
    assert forall k :: 0 <= k < |p3| ==> text[s + k] == p3[k];
    assert p3[|p2|] == '\n';
    assert forall k :: 0 <= k < |p2| ==> p3[k] == p2[k];
    assert forall k :: 0 <= k < |d| ==> p2[|p1| + k] == d[k];
    assert forall k :: 0 <= k < |p1| ==> p2[k] == p1[k];
    assert forall k :: 0 <= k < |blanks| ==> p1[2 + k] == blanks[k];
    assert p1[0] == '/' && p1[1] == '/';
    assert text[b..b + |d|] == d;
  }

  /** When `before` holds exactly the first `line - 1` lines, `line` starts
      right after it. */
  lemma StartOfLineAfter(before: string, rest: string, line: int)
    requires line >= 1
    requires if line == 1 then before == "" else |before| > 0 && before[|before| - 1] == '\n' && Count(before, '\n') == line - 1
    ensures LineStart(before + rest, line) == |before|
  {
    if line >= 2 {
      assert (before + rest)[..|before|] == before;
      LineStartAt(before + rest, line, |before|);
    }
  }

  /** From `i`, blanks up to `b`, then the pieces joined with `//` and a
      newline: skipping and copying yields the pieces joined with spaces. */
  lemma BodyCopied(text: string, i: nat, b: nat, pieces: seq<string>)
    requires |pieces| >= 1 && MarkerFreePieces(pieces) && '\n' !in Join(pieces, "//")
    requires i <= b && b + |Join(pieces, "//")| < |text| && text[b + |Join(pieces, "//")|] == '\n'
    requires text[b..b + |Join(pieces, "//")|] == Join(pieces, "//")
    requires forall k :: i <= k < b ==> text[k] == ' ' || text[k] == '\t'
    requires |Join(pieces, "//")| > 0 ==> Join(pieces, "//")[0] != ' ' && Join(pieces, "//")[0] != '\t'
    ensures NewlineFrom(text, i)
    ensures CopyLine(text, SkipBlanks(text, i)) == Join(pieces, " ")
  {
    var d := Join(pieces, "//");
    assert NewlineFrom(text, b + |d|);
    assert text[b] != ' ' && text[b] != '\t' by {
      if |d| > 0 { assert text[b] == d[0]; }
    }
    SkipBlanksAt(text, i, b);
    CopyPieces(text, b, pieces);
  }

  /** Blank skipping stops at the first index that is not blank. */
  lemma {:induction false} SkipBlanksAt(text: string, i: nat, j: nat)
    requires i <= j < |text| && text[j] != ' ' && text[j] != '\t'
    requires forall k :: i <= k < j ==> text[k] == ' ' || text[k] == '\t'
    requires NewlineFrom(text, i)
    ensures SkipBlanks(text, i) == j
    decreases j - i
  {
    if i < j {
      assert NewlineFrom(text, i + 1) by {
        var k :| i <= k < |text| && text[k] == '\n';
        assert k != i;
      }
      SkipBlanksAt(text, i + 1, j);
    }
  }
}
